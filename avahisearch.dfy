/**
  The DNS-SD printer finder: the TXT-record normaliser that turns `key=value`
  strings into a dictionary, and the finder object whose handlers collect
  resolved services until an inactivity timer or the browser's "all for now"
  signal ends the main loop.
*/
module AvahiSearch {
  import opened Text

  /** The protocol a search is restricted to: IPv4 only, or unspecified. */
  datatype Protocol = Inet | Unspec

  /** A resolved service as the resolver returns it; the TXT data already as strings. */
  datatype Resolved = Resolved(host: string, name: string, address: string, port: int,
                               domain: string, txt: seq<string>)

  /** One collected printer: the resolved fields with the TXT data as a dictionary. */
  datatype PrinterRecord = PrinterRecord(host: string, name: string, address: string, port: int,
                                         domain: string, txt: map<string, string>)

  const SERVICE_TYPE: string := "_ipp._tcp"

  /**
    `entry.split('=', 1)` read as a key and a value: the key is everything
    before the first `=`, the value everything after it, or empty when the
    entry has no `=`.
  */
  function SplitKeyValue(entry: string): (pair: (string, string))
    ensures '=' !in pair.0
    ensures '=' in entry ==> pair.0 + "=" + pair.1 == entry
    ensures '=' !in entry ==> pair == (entry, "")
  {
    var k := FirstIndexOf(entry, '=');
    if k < 0 then (entry, "")
    else
      assert entry == entry[..k] + "=" + entry[k + 1..];
      (entry[..k], entry[k + 1..])
  }

  /**
    Round trip: a key without `=`, then `=`, then any value (which may itself
    contain `=`) splits back into that key and that value.
  */
  lemma KeyValueRoundTrip(key: string, value: string)
    requires '=' !in key
    ensures SplitKeyValue(key + "=" + value) == (key, value)
  {
    var entry := key + "=" + value;
    assert entry[|key|] == '=';
    assert entry[..|key|] == key && entry[|key| + 1..] == value;
  }

  function KeyOf(entry: string): string
  {
    SplitKeyValue(entry).0
  }

  function ValueOf(entry: string): string
  {
    SplitKeyValue(entry).1
  }

  /** The dictionary the entries build when each one is stored in turn. */
  function TxtMap(txt: seq<string>): map<string, string>
  {
    if txt == [] then map[]
    else TxtMap(txt[..|txt| - 1])[KeyOf(txt[|txt| - 1]) := ValueOf(txt[|txt| - 1])]
  }

  /** The keys of the dictionary: the before-first-`=` prefixes of the entries. */
  lemma {:induction false} TxtMapKeys(txt: seq<string>)
    ensures forall k :: k in TxtMap(txt) <==> exists i :: 0 <= i < |txt| && KeyOf(txt[i]) == k
  {
    if txt != [] {
      var init := txt[..|txt| - 1];
      TxtMapKeys(init);
      forall k | k in TxtMap(txt) ensures exists i :: 0 <= i < |txt| && KeyOf(txt[i]) == k {
        if k != KeyOf(txt[|txt| - 1]) {
          assert TxtMap(txt) == TxtMap(init)[KeyOf(txt[|txt| - 1]) := ValueOf(txt[|txt| - 1])];
          assert k in TxtMap(init);
          var i :| 0 <= i < |init| && KeyOf(init[i]) == k;
          assert txt[i] == init[i];
        }
      }
      forall i | 0 <= i < |txt| ensures KeyOf(txt[i]) in TxtMap(txt) {
        if i < |init| { assert txt[i] == init[i]; }
      }
    }
  }

  /** A key takes the value of its last occurrence: later entries overwrite earlier ones. */
  lemma {:induction false} TxtMapLastWins(txt: seq<string>, i: nat)
    requires i < |txt|
    requires forall j :: i < j < |txt| ==> KeyOf(txt[j]) != KeyOf(txt[i])
    ensures KeyOf(txt[i]) in TxtMap(txt) && TxtMap(txt)[KeyOf(txt[i])] == ValueOf(txt[i])
  {
    if i < |txt| - 1 {
      var init := txt[..|txt| - 1];
      assert init[i] == txt[i];
      TxtMapLastWins(init, i);
    }
  }

  /** The printer record stored for one resolved service. */
  function Record(r: Resolved): PrinterRecord
  {
    PrinterRecord(r.host, r.name, r.address, r.port, r.domain, TxtMap(r.txt))
  }

  /**
    The finder. `quitRequested` stands for the main loop having been told to
    quit; the resolver and the main loop themselves are not part of the model.
  */
  class PrinterFinder {
    var searchProtocol: Protocol
    var searchDomain: string
    var verbose: bool
    var serviceType: string
    var stillReceivingEvents: int
    var printers: seq<PrinterRecord>
    var quitRequested: bool

    constructor (ipv4Only: bool := true, searchDomain: string := "local", verbose: bool := false)
      ensures this.searchProtocol == (if ipv4Only then Inet else Unspec)
      ensures this.searchDomain == searchDomain && this.verbose == verbose
      ensures serviceType == SERVICE_TYPE
      ensures stillReceivingEvents == 0
      ensures printers == []
      ensures !quitRequested
    {
      this.searchProtocol := if ipv4Only then Inet else Unspec;
      this.searchDomain := searchDomain;
      this.verbose := verbose;
      this.serviceType := SERVICE_TYPE;
      this.stillReceivingEvents := 0;
      this.printers := [];
      this.quitRequested := false;
    }

    /** A new service was seen and resolved to `resolved`: note the event and keep one record. */
    method ItemNew(resolved: Resolved)
      modifies this
      ensures stillReceivingEvents == 1
      ensures printers == old(printers) + [Record(resolved)]
      ensures quitRequested == old(quitRequested)
      ensures searchProtocol == old(searchProtocol) && searchDomain == old(searchDomain)
      ensures verbose == old(verbose) && serviceType == old(serviceType)
    {
      stillReceivingEvents := 1;
      var txt := TxtArrayToDict(resolved.txt);
      printers := printers + [PrinterRecord(resolved.host, resolved.name, resolved.address,
                                            resolved.port, resolved.domain, txt)];
    }

    /** The browser has reported everything it knows: quit at once. */
    method AllForNow()
      modifies this
      ensures quitRequested
      ensures stillReceivingEvents == old(stillReceivingEvents) && printers == old(printers)
      ensures searchProtocol == old(searchProtocol) && searchDomain == old(searchDomain)
      ensures verbose == old(verbose) && serviceType == old(serviceType)
    {
      quitRequested := true;
    }

    /**
      The periodic timer. With no event since the previous tick it quits and
      asks not to be called again; otherwise it clears the event flag and asks
      to be called again.
    */
    method TimerTick() returns (again: bool)
      modifies this
      ensures again <==> old(stillReceivingEvents) != 0
      ensures !again ==> quitRequested && stillReceivingEvents == old(stillReceivingEvents)
      ensures again ==> quitRequested == old(quitRequested) && stillReceivingEvents == 0
      ensures printers == old(printers)
      ensures searchProtocol == old(searchProtocol) && searchDomain == old(searchDomain)
      ensures verbose == old(verbose) && serviceType == old(serviceType)
    {
      if stillReceivingEvents == 0 {
        quitRequested := true;
        return false;
      }
      stillReceivingEvents := 0;
      return true;
    }

    /** The dictionary of a TXT string array: split at the first `=`, later keys win. */
    method TxtArrayToDict(txtarray: seq<string>) returns (txtdict: map<string, string>)
      ensures txtdict == TxtMap(txtarray)
      ensures forall k :: k in txtdict <==> exists i :: 0 <= i < |txtarray| && KeyOf(txtarray[i]) == k
    {
      txtdict := map[];
      for i := 0 to |txtarray|
        invariant txtdict == TxtMap(txtarray[..i])
      {
        assert txtarray[..i + 1][..i] == txtarray[..i];
        var pair := SplitKeyValue(txtarray[i]);
        txtdict := txtdict[pair.0 := pair.1];
      }
      assert txtarray[..|txtarray|] == txtarray;
      TxtMapKeys(txtarray);
    }
  }

  /** Two timer ticks with no new service in between always end the collection. */
  method TwoQuietTicks(finder: PrinterFinder) returns (first: bool, second: bool)
    modifies finder
    ensures !second && finder.quitRequested
    ensures finder.stillReceivingEvents == 0
    ensures finder.printers == old(finder.printers)
  {
    first := finder.TimerTick();
    second := finder.TimerTick();
  }
}
