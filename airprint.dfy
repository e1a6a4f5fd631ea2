/**
  The AirPrint descriptor builder: for every shared print queue, the service
  name, the file name, the port and the ordered list of text records of one
  service-group descriptor. The `pdl` record comes from a format negotiator
  that keeps table-allowed formats, then formats the table does not know,
  and drops trailing entries until the value is shorter than 255 characters.
*/
module AirPrint {
  import opened Wrappers
  import opened Text
  import AvahiSearch

  /** The `pdl` value must be shorter than this; the bound is on the bare value. */
  const PDL_LIMIT: nat := 255

  /**
    The static document-type table: `true` formats are always advertised,
    `false` formats never; formats missing from the table are deferred.
  */
  const DOCUMENT_TYPES: map<string, bool> := map[
    "application/pdf" := true,
    "application/postscript" := true,
    "application/vnd.cups-raster" := true,
    "application/octet-stream" := true,
    "image/png" := true,
    "image/tiff" := true,
    "image/jpeg" := true,
    "image/gif" := true,
    "text/plain" := true,
    "text/html" := true,

    "image/x-xwindowdump" := false,
    "image/x-xpixmap" := false,
    "image/x-xbitmap" := false,
    "image/x-sun-raster" := false,
    "image/x-sgi-rgb" := false,
    "image/x-portable-pixmap" := false,
    "image/x-portable-graymap" := false,
    "image/x-portable-bitmap" := false,
    "image/x-portable-anymap" := false,
    "application/x-shell" := false,
    "application/x-perl" := false,
    "application/x-csource" := false,
    "application/x-cshell" := false
  ]

  /** What the table says about one format. */
  datatype Class = Allowed | Excluded | Deferred

  function Classify(format: string): Class
  {
    if format in DOCUMENT_TYPES then
      if DOCUMENT_TYPES[format] then Allowed else Excluded
    else Deferred
  }

  // ---------------------------------------------------------------------
  // Partition of the supported formats

  /** The formats of `s` in class `c`, in their order in `s`. */
  function Select(s: seq<string>, c: Class): seq<string>
  {
    if s == [] then []
    else Select(s[..|s| - 1], c) + (if Classify(s[|s| - 1]) == c then [s[|s| - 1]] else [])
  }

  /** All allowed formats, then all deferred ones: the list the `pdl` value is joined from. */
  function Ordered(supported: seq<string>): seq<string>
  {
    Select(supported, Allowed) + Select(supported, Deferred)
  }

  /** `a` is `b` with some elements left out and the rest in their order. */
  ghost predicate IsSubsequence<T>(a: seq<T>, b: seq<T>)
    decreases |b|
  {
    if a == [] then true
    else if b == [] then false
    else (a[|a| - 1] == b[|b| - 1] && IsSubsequence(a[..|a| - 1], b[..|b| - 1]))
         || IsSubsequence(a, b[..|b| - 1])
  }

  /** Exactly the formats of class `c` are selected. */
  lemma {:induction false} SelectMembers(s: seq<string>, c: Class, x: string)
    ensures x in Select(s, c) <==> x in s && Classify(x) == c
  {
    if s != [] {
      var init := s[..|s| - 1];
      SelectMembers(init, c, x);
      assert s == init + [s[|s| - 1]];
    }
  }

  /** The selection keeps the order of the supported list. */
  lemma {:induction false} SelectInOrder(s: seq<string>, c: Class)
    ensures IsSubsequence(Select(s, c), s)
  {
    if s != [] {
      var init := s[..|s| - 1];
      SelectInOrder(init, c);
      if Classify(s[|s| - 1]) == c {
        var sel := Select(s, c);
        assert sel[..|sel| - 1] == Select(init, c);
      } else {
        SkipLast(Select(init, c), s);
        assert Select(s, c) == Select(init, c);
      }
    }
  }

  /** A subsequence of the list without its last element is a subsequence of the list. */
  lemma {:induction false} SkipLast<T>(a: seq<T>, b: seq<T>)
    requires b != [] && IsSubsequence(a, b[..|b| - 1])
    ensures IsSubsequence(a, b)
  {
  }

  /** Every supported entry lands in exactly one of the three classes. */
  lemma {:induction false} SelectPartitions(s: seq<string>)
    ensures multiset(Select(s, Allowed)) + multiset(Select(s, Excluded)) + multiset(Select(s, Deferred))
            == multiset(s)
  {
    if s != [] {
      SelectPartitions(s[..|s| - 1]);
      SelectSnoc(s, Allowed);
      SelectSnoc(s, Excluded);
      SelectSnoc(s, Deferred);
      MultisetSnoc(s);
    }
  }

  /** The last format joins the multiset of its own class only. */
  lemma SelectSnoc(s: seq<string>, c: Class)
    requires s != []
    ensures multiset(Select(s, c))
            == multiset(Select(s[..|s| - 1], c)) + (if Classify(s[|s| - 1]) == c then multiset{s[|s| - 1]} else multiset{})
  {
  }

  lemma MultisetSnoc<T>(s: seq<T>)
    requires s != []
    ensures multiset(s) == multiset(s[..|s| - 1]) + multiset{s[|s| - 1]}
  {
    assert s == s[..|s| - 1] + [s[|s| - 1]];
  }

  /**
    The joined list holds every supported format that is not excluded and
    nothing else, allowed formats before deferred ones.
  */
  lemma OrderedFormats(supported: seq<string>)
    ensures forall x :: x in Ordered(supported) <==> x in supported && Classify(x) != Excluded
    ensures forall i, j :: 0 <= i < j < |Ordered(supported)| && Classify(Ordered(supported)[j]) == Allowed
              ==> Classify(Ordered(supported)[i]) == Allowed
    ensures forall i :: 0 <= i < |Ordered(supported)| ==> Classify(Ordered(supported)[i]) != Excluded
  {
    var allowed, deferred := Select(supported, Allowed), Select(supported, Deferred);
    forall x ensures x in allowed <==> x in supported && Classify(x) == Allowed {
      SelectMembers(supported, Allowed, x);
    }
    forall x ensures x in deferred <==> x in supported && Classify(x) == Deferred {
      SelectMembers(supported, Deferred, x);
    }
    forall i | 0 <= i < |Ordered(supported)|
      ensures Classify(Ordered(supported)[i]) == (if i < |allowed| then Allowed else Deferred)
    {
      if i < |allowed| {
        assert Ordered(supported)[i] == allowed[i];
      } else {
        assert Ordered(supported)[i] == deferred[i - |allowed|];
      }
    }
  }

  /** The loop that sorts `document-format-supported` into kept and deferred formats. */
  method Partition(supported: seq<string>) returns (fmts: seq<string>, defer: seq<string>)
    ensures fmts == Select(supported, Allowed)
    ensures defer == Select(supported, Deferred)
  {
    fmts, defer := [], [];
    for i := 0 to |supported|
      invariant fmts == Select(supported[..i], Allowed)
      invariant defer == Select(supported[..i], Deferred)
    {
      assert supported[..i + 1][..i] == supported[..i];
      var a := supported[i];
      if a in DOCUMENT_TYPES {
        if DOCUMENT_TYPES[a] {
          fmts := fmts + [a];
        }
      } else {
        defer := defer + [a];
      }
    }
    assert supported[..|supported|] == supported;
  }

  // ---------------------------------------------------------------------
  // Truncation of the joined value

  /**
    The outcome of the truncation loop: the value it stops with and the
    entries it dropped, in dropping order; or the piece it was left with when
    a too-long value had no comma left to split at (`rsplit` then yields one
    piece and the two-way unpacking fails).
  */
  datatype Truncation = Fits(value: string, dropped: seq<string>) | Stuck(rest: string)

  /** `value` is `joined` up to a comma, or all of it. */
  ghost predicate CommaPrefix(joined: string, value: string)
  {
    |value| <= |joined| && value == joined[..|value|] && (|value| < |joined| ==> joined[|value|] == ',')
  }

  /**
    What the truncation of `joined` yields. A fitting value is shorter than
    the limit, restores `joined` when the dropped entries are appended back in
    reverse order, loses nothing when `joined` already fits, and is the longest
    comma-prefix under the limit (every later comma lies at or past it). The
    stuck case is the first comma-separated piece, when that piece is already
    too long.
  */
  ghost predicate TruncationOf(joined: string, t: Truncation)
  {
    match t
    case Fits(value, dropped) =>
      && |value| < PDL_LIMIT
      && Join([value] + Reverse(dropped), ',') == joined
      && SeparatorFree(dropped, ',')
      && (dropped != [] ==> |joined| >= PDL_LIMIT)
      && (forall k :: |value| < k < |joined| && joined[k] == ',' ==> k >= PDL_LIMIT)
    case Stuck(rest) =>
      && CommaPrefix(joined, rest)
      && ',' !in rest
      && |rest| >= PDL_LIMIT
  }

  /**
    The state of the truncation loop: `fmts` is a comma-prefix of `joined`,
    the dropped entries restore `joined`, and every comma past `fmts` lies at
    or beyond the limit.
  */
  ghost predicate TruncationState(joined: string, fmts: string, dropped: seq<string>)
  {
    && CommaPrefix(joined, fmts)
    && (forall k :: |fmts| < k < |joined| && joined[k] == ',' ==> k >= PDL_LIMIT)
    && Join([fmts] + Reverse(dropped), ',') == joined
    && SeparatorFree(dropped, ',')
    && (dropped != [] ==> |joined| >= PDL_LIMIT)
    && (dropped == [] <==> fmts == joined)
  }

  /** One turn of the loop: cutting a too-long value at its last comma keeps the state. */
  lemma TruncationStep(joined: string, fmts: string, dropped: seq<string>, k: int)
    requires TruncationState(joined, fmts, dropped) && |fmts| >= PDL_LIMIT
    requires 0 <= k < |fmts| && fmts[k] == ',' && ',' !in fmts[k + 1..]
    ensures TruncationState(joined, fmts[..k], dropped + [fmts[k + 1..]])
  {
    StepRestores(fmts, dropped, k);
    StepCommas(joined, fmts, k);
    assert fmts[..k] == joined[..k];
  }

  /** The cut-off entry, put back in front of the dropped ones, restores the value. */
  lemma StepRestores(fmts: string, dropped: seq<string>, k: int)
    requires 0 <= k < |fmts| && fmts[k] == ','
    ensures Join([fmts[..k]] + Reverse(dropped + [fmts[k + 1..]]), ',') == Join([fmts] + Reverse(dropped), ',')
  {
    var drop := fmts[k + 1..];
    assert fmts == fmts[..k] + [','] + drop;
    JoinCons(fmts[..k], [drop] + Reverse(dropped), ',');
    JoinCons(drop, Reverse(dropped), ',');
    JoinCons(fmts, Reverse(dropped), ',');
    ReverseSnoc(dropped, drop);
    assert [fmts[..k]] + Reverse(dropped + [drop]) == [fmts[..k]] + ([drop] + Reverse(dropped));
  }

  /** Cutting at the last comma of a too-long prefix leaves no comma under the limit past the cut. */
  lemma StepCommas(joined: string, fmts: string, k: int)
    requires CommaPrefix(joined, fmts) && |fmts| >= PDL_LIMIT
    requires forall j :: |fmts| < j < |joined| && joined[j] == ',' ==> j >= PDL_LIMIT
    requires 0 <= k < |fmts| && ',' !in fmts[k + 1..]
    ensures forall j :: k < j < |joined| && joined[j] == ',' ==> j >= PDL_LIMIT
  {
    forall j | k < j < |fmts| ensures joined[j] != ',' {
      assert joined[j] == fmts[j] == fmts[k + 1..][j - k - 1];
    }
  }

  /** The truncation loop: drop the last comma-separated entry while the value is too long. */
  method Truncate(joined: string) returns (t: Truncation)
    ensures TruncationOf(joined, t)
    ensures t.Stuck? <==> |joined| >= PDL_LIMIT && forall k :: 0 <= k < |joined| && k < PDL_LIMIT ==> joined[k] != ','
    ensures t.Fits? ==> (t.dropped == [] <==> |joined| < PDL_LIMIT)
  {
    var fmts := joined;
    var dropped: seq<string> := [];
    while |fmts| >= PDL_LIMIT
      invariant TruncationState(joined, fmts, dropped)
      decreases |fmts|
    {
      var k := LastIndexOf(fmts, ',');
      if k < 0 {
        StuckExit(joined, fmts, dropped);
        return Stuck(fmts);
      }
      TruncationStep(joined, fmts, dropped, k);
      fmts, dropped := fmts[..k], dropped + [fmts[k + 1..]];
    }
    FitsExit(joined, fmts, dropped);
    t := Fits(fmts, dropped);
  }

  /** A too-long state without a comma is stuck, and `joined` has no comma under the limit. */
  lemma StuckExit(joined: string, fmts: string, dropped: seq<string>)
    requires TruncationState(joined, fmts, dropped) && |fmts| >= PDL_LIMIT && ',' !in fmts
    ensures TruncationOf(joined, Stuck(fmts))
    ensures |joined| >= PDL_LIMIT && forall k :: 0 <= k < |joined| && k < PDL_LIMIT ==> joined[k] != ','
  {
    assert forall j :: 0 <= j < |fmts| ==> joined[j] == fmts[j];
  }

  /** A state under the limit is the fitting truncation, which drops something exactly when `joined` is too long. */
  lemma FitsExit(joined: string, fmts: string, dropped: seq<string>)
    requires TruncationState(joined, fmts, dropped) && |fmts| < PDL_LIMIT
    ensures TruncationOf(joined, Fits(fmts, dropped))
    ensures dropped == [] <==> |joined| < PDL_LIMIT
    ensures |joined| >= PDL_LIMIT ==> exists k :: 0 <= k < |joined| && k < PDL_LIMIT && joined[k] == ','
  {
    if |joined| >= PDL_LIMIT {
      assert joined[|fmts|] == ',';
    }
  }

  /** A value that the dropped entries extend to `joined` is a comma-prefix of it. */
  lemma RestoredPrefix(joined: string, value: string, dropped: seq<string>)
    requires Join([value] + Reverse(dropped), ',') == joined
    ensures CommaPrefix(joined, value)
    ensures dropped == [] <==> value == joined
    ensures dropped != [] ==> joined == value + [','] + Join(Reverse(dropped), ',')
  {
    JoinCons(value, Reverse(dropped), ',');
    if dropped != [] {
      assert joined[..|value|] == value;
    }
  }

  /** The truncation outcome is determined by the joined value. */
  lemma TruncationUnique(joined: string, t1: Truncation, t2: Truncation)
    requires TruncationOf(joined, t1) && TruncationOf(joined, t2)
    ensures t1 == t2
  {
    match (t1, t2)
    case (Fits(v1, d1), Fits(v2, d2)) =>
      RestoredPrefix(joined, v1, d1);
      RestoredPrefix(joined, v2, d2);
      if d1 != [] && d2 != [] {
        assert v1 == v2;
        var r1, r2 := Reverse(d1), Reverse(d2);
        assert Join(r1, ',') == Join(r2, ',') by {
          assert joined == v1 + [','] + Join(r1, ',') == v1 + [','] + Join(r2, ',');
          assert Join(r1, ',') == joined[|v1| + 1..];
        }
        SplitJoin(r1, ',');
        SplitJoin(r2, ',');
        ReverseReverse(d1);
        ReverseReverse(d2);
      }
    case (Fits(v, d), Stuck(rest)) =>
      RestoredPrefix(joined, v, d);
    case (Stuck(rest), Fits(v, d)) =>
      RestoredPrefix(joined, v, d);
    case (Stuck(r1), Stuck(r2)) =>
      CommaFreePrefixUnique(joined, r1, r2);
  }

  /** A string has only one comma-prefix without a comma: its first piece. */
  lemma CommaFreePrefixUnique(joined: string, p1: string, p2: string)
    requires CommaPrefix(joined, p1) && CommaPrefix(joined, p2)
    requires ',' !in p1 && ',' !in p2
    ensures p1 == p2
  {
    assert |p1| == |p2|;
  }

  /**
    On comma-free entries the truncation works entry by entry: a fitting value
    is the join of the longest prefix of entries that fits, the dropped
    entries are the remaining ones from the end backwards, and the truncation
    is stuck exactly when the first entry alone is too long.
  */
  lemma TruncationByEntries(entries: seq<string>, t: Truncation)
    requires SeparatorFree(entries, ',')
    requires TruncationOf(Join(entries, ','), t)
    ensures t.Stuck? ==> |entries| > 0 && t.rest == entries[0] && |entries[0]| >= PDL_LIMIT
    ensures t.Fits? ==> |t.dropped| <= |entries|
    ensures t.Fits? ==>
              var kept := |entries| - |t.dropped|;
              && (entries != [] ==> kept >= 1)
              && t.value == Join(entries[..kept], ',')
              && t.dropped == Reverse(entries[kept..])
              && (kept < |entries| ==> |Join(entries[..kept + 1], ',')| >= PDL_LIMIT)
  {
    var joined := Join(entries, ',');
    match t
    case Stuck(rest) =>
      StuckOnFirstEntry(entries, rest);
    case Fits(value, dropped) =>
      RestoredPrefix(joined, value, dropped);
      if dropped == [] {
        assert entries != [] ==> entries[..|entries|] == entries;
      } else {
        FitsDropsTail(entries, value, dropped);
      }
  }

  /** A stuck truncation of comma-free entries is stuck on the first entry. */
  lemma StuckOnFirstEntry(entries: seq<string>, rest: string)
    requires SeparatorFree(entries, ',')
    requires TruncationOf(Join(entries, ','), Stuck(rest))
    ensures |entries| > 0 && rest == entries[0] && |entries[0]| >= PDL_LIMIT
  {
    var joined := Join(entries, ',');
    if entries != [] {
      JoinCons(entries[0], entries[1..], ',');
      assert [entries[0]] + entries[1..] == entries;
      var first := entries[0];
      assert joined[..|first|] == first;
      CommaFreePrefixUnique(joined, rest, first);
    }
  }

  /** When something is dropped, the entries are those of the value, then the dropped ones reversed. */
  lemma EntriesAroundValue(entries: seq<string>, value: string, dropped: seq<string>)
    requires SeparatorFree(entries, ',') && dropped != []
    requires TruncationOf(Join(entries, ','), Fits(value, dropped))
    ensures entries == Split(value, ',') + Reverse(dropped)
  {
    var r := Reverse(dropped);
    RestoredPrefix(Join(entries, ','), value, dropped);
    SplitAround(value, Join(r, ','), ',');
    SplitJoin(r, ',');
    SplitJoin(entries, ',');
  }

  /** When something is dropped, the kept entries are a prefix and the dropped ones the rest. */
  lemma FitsDropsTail(entries: seq<string>, value: string, dropped: seq<string>)
    requires SeparatorFree(entries, ',') && dropped != []
    requires TruncationOf(Join(entries, ','), Fits(value, dropped))
    ensures |dropped| < |entries|
    ensures var kept := |entries| - |dropped|;
            && value == Join(entries[..kept], ',')
            && dropped == Reverse(entries[kept..])
            && |Join(entries[..kept + 1], ',')| >= PDL_LIMIT
  {
    var joined := Join(entries, ',');
    EntriesAroundValue(entries, value, dropped);
    RestoredPrefix(joined, value, dropped);
    var r := Reverse(dropped);
    var front := Split(value, ',');
    var kept := |front|;
    assert |r| == |dropped|;
    assert entries[..kept] == front && entries[kept..] == r;
    JoinSplit(value, ',');
    ReverseReverse(dropped);
    assert |entries| - |dropped| == kept;
    NextEntryOverflows(joined, value, front, r);
    assert entries[..kept + 1] == front + [r[0]];
    assert Join(entries[..kept + 1], ',') == Join(front + [r[0]], ',');
  }

  /** Adding back the first dropped entry would reach the limit. */
  lemma NextEntryOverflows(joined: string, value: string, front: seq<string>, r: seq<string>)
    requires r != [] && |front| > 0 && Join(front, ',') == value
    requires |joined| >= PDL_LIMIT
    requires joined == value + [','] + Join(r, ',')
    requires forall k :: |value| < k < |joined| && joined[k] == ',' ==> k >= PDL_LIMIT
    ensures |Join(front + [r[0]], ',')| >= PDL_LIMIT
  {
    JoinSnoc(front, r[0], ',');
    JoinCons(r[0], r[1..], ',');
    assert [r[0]] + r[1..] == r;
    if |r| > 1 {
      assert joined[|value| + 1 + |r[0]|] == ',';
    }
  }

  // ---------------------------------------------------------------------
  // The descriptor of one queue

  /**
    One print queue as the spooler reports it, with the port and path of its
    `printer-uri-supported` already taken apart (`uriPort` is absent when the
    URI names no port).
  */
  datatype Queue = Queue(name: string, shared: bool, info: string, state: nat, printerType: nat,
                         uri: string, uriPort: Option<nat>, uriPath: string,
                         formats: seq<string>)

  /** The service element: name, type, subtype, port and text records in order. */
  datatype Service = Service(name: string, serviceType: string, subtype: string, port: string,
                             txt: seq<string>)

  /**
    One descriptor file: its name, its service element, the negotiated `pdl`
    value with the dropped formats, and the warning written for them.
  */
  datatype Output = Output(fileName: string, service: Service, pdl: string, dropped: seq<string>,
                           warning: Option<string>)

  /** Why the script stops at a queue. */
  datatype Failure = PortMissing(queue: string) | PdlUnsplittable(queue: string, rest: string)

  const SERVICE_TYPE: string := "_ipp._tcp"
  const SERVICE_SUBTYPE: string := "_universal._sub._ipp._tcp"

  function ServiceName(p: string): string
  {
    "AirPlay " + p + " @ %h"
  }

  function FileName(p: string): string
  {
    "airprint-" + p + ".service"
  }

  /** One text record: `key=value`. */
  function TxtRecord(key: string, value: string): string
  {
    key + "=" + value
  }

  /** The four text records of the template, then the seven the builder appends. */
  function TxtRecords(q: Queue, pdl: string): seq<string>
  {
    [TxtRecord("txtvers", "1"), TxtRecord("qtotal", "1"), TxtRecord("Transparent", "T"),
     TxtRecord("URF", "none"),
     TxtRecord("rp", q.uriPath),
     TxtRecord("note", q.info),
     TxtRecord("product", "(GPL Ghostscript)"),
     TxtRecord("printer-state", Decimal(q.state)),
     TxtRecord("printer-type", Hex(q.printerType)),
     TxtRecord("pdl", pdl),
     TxtRecord("adminurl", q.uri)]
  }

  /** The line written to standard error when formats are dropped. */
  function LossWarning(p: string, dropped: seq<string>): string
  {
    p + " Losing support for: " + Join(dropped, ',') + "\n"
  }

  /** `out` is the descriptor written for `q`. */
  ghost predicate Describes(q: Queue, out: Output)
  {
    && q.uriPort.Some?
    && TruncationOf(Join(Ordered(q.formats), ','), Fits(out.pdl, out.dropped))
    && out.fileName == FileName(q.name)
    && out.service == Service(ServiceName(q.name), SERVICE_TYPE, SERVICE_SUBTYPE,
                              Decimal(q.uriPort.value), TxtRecords(q, out.pdl))
    && out.warning == (if out.dropped == [] then None else Some(LossWarning(q.name, out.dropped)))
  }

  /** Building the descriptor of `q` stops the script with `f`. */
  ghost predicate FailsWith(q: Queue, f: Failure)
  {
    match f
    case PortMissing(p) => p == q.name && q.uriPort.None?
    case PdlUnsplittable(p, rest) =>
      p == q.name && q.uriPort.Some? && TruncationOf(Join(Ordered(q.formats), ','), Stuck(rest))
  }

  /** The body of the loop over printers, for one queue. */
  method Describe(q: Queue) returns (r: Result<Output, Failure>)
    ensures r.Ok? ==> Describes(q, r.value)
    ensures r.Err? ==> FailsWith(q, r.error)
  {
    if q.uriPort.None? {
      return Err(PortMissing(q.name));
    }
    var port := Decimal(q.uriPort.value);
    var fmts, defer := Partition(q.formats);
    var t := Truncate(Join(fmts + defer, ','));
    if t.Stuck? {
      return Err(PdlUnsplittable(q.name, t.rest));
    }
    var warning := if |t.dropped| > 0 then Some(LossWarning(q.name, t.dropped)) else None;
    var service := Service(ServiceName(q.name), SERVICE_TYPE, SERVICE_SUBTYPE, port, TxtRecords(q, t.value));
    r := Ok(Output(FileName(q.name), service, t.value, t.dropped, warning));
  }

  /**
    A queue advertising PDF, PNG and an X bitmap format: the bitmap format is
    excluded by the table and the other two are kept in order.
  */
  lemma ColorLaserJetFormats()
    ensures Join(Ordered(["application/pdf", "image/png", "image/x-xbitmap"]), ',')
            == "application/pdf,image/png"
  {
    var s := ["application/pdf", "image/png", "image/x-xbitmap"];
    var s1, s2 := s[..1], s[..2];
    ColorLaserJetClasses();
    assert s1[..0] == [] && s2[..1] == s1 && s[..2] == s2;
    assert Select(s1, Allowed) == [s[0]] && Select(s1, Deferred) == [];
    assert Select(s2, Allowed) == [s[0], s[1]] && Select(s2, Deferred) == [];
    assert Select(s, Allowed) == [s[0], s[1]] && Select(s, Deferred) == [];
  }

  /** What the table says about the three formats of `ColorLaserJetFormats`. */
  lemma ColorLaserJetClasses()
    ensures Classify("application/pdf") == Allowed
    ensures Classify("image/png") == Allowed
    ensures Classify("image/x-xbitmap") == Excluded
  {
  }

  /** Two outputs that both describe `q` are the same output. */
  lemma DescriptorUnique(q: Queue, o1: Output, o2: Output)
    requires Describes(q, o1) && Describes(q, o2)
    ensures o1 == o2
  {
    TruncationUnique(Join(Ordered(q.formats), ','), Fits(o1.pdl, o1.dropped), Fits(o2.pdl, o2.dropped));
  }

  /** A queue that has a descriptor does not also make the script stop. */
  lemma DescriptorExcludesFailure(q: Queue, out: Output, f: Failure)
    requires Describes(q, out)
    ensures !FailsWith(q, f)
  {
    if f.PdlUnsplittable? && FailsWith(q, f) {
      TruncationUnique(Join(Ordered(q.formats), ','), Fits(out.pdl, out.dropped), Stuck(f.rest));
    }
  }

  /**
    The `pdl` value of a descriptor, for comma-free formats: the join of the
    longest fitting prefix of the ordered formats, none of them excluded by
    the table, with the rest dropped from the end.
  */
  lemma DescribedPdl(q: Queue, out: Output)
    requires Describes(q, out) && SeparatorFree(q.formats, ',')
    ensures |out.dropped| <= |Ordered(q.formats)|
    ensures var ordered := Ordered(q.formats);
            var kept := |ordered| - |out.dropped|;
            && out.pdl == Join(ordered[..kept], ',')
            && out.dropped == Reverse(ordered[kept..])
            && (forall i :: 0 <= i < kept ==> Classify(ordered[i]) != Excluded)
            && (kept < |ordered| ==> |Join(ordered[..kept + 1], ',')| >= PDL_LIMIT)
  {
    assert TruncationOf(Join(Ordered(q.formats), ','), Fits(out.pdl, out.dropped));
    NegotiatedPdl(q.formats, out.pdl, out.dropped);
  }

  /** The negotiation of comma-free formats, entry by entry. */
  lemma NegotiatedPdl(formats: seq<string>, pdl: string, dropped: seq<string>)
    requires SeparatorFree(formats, ',')
    requires TruncationOf(Join(Ordered(formats), ','), Fits(pdl, dropped))
    ensures |dropped| <= |Ordered(formats)|
    ensures var ordered := Ordered(formats);
            var kept := |ordered| - |dropped|;
            && pdl == Join(ordered[..kept], ',')
            && dropped == Reverse(ordered[kept..])
            && (forall i :: 0 <= i < kept ==> Classify(ordered[i]) != Excluded)
            && (kept < |ordered| ==> |Join(ordered[..kept + 1], ',')| >= PDL_LIMIT)
  {
    OrderedFormats(formats);
    OrderedCommaFree(formats);
    TruncationByEntries(Ordered(formats), Fits(pdl, dropped));
  }

  /** The negotiated order of comma-free formats is comma-free. */
  lemma OrderedCommaFree(formats: seq<string>)
    requires SeparatorFree(formats, ',')
    ensures SeparatorFree(Ordered(formats), ',')
  {
    var ordered := Ordered(formats);
    OrderedFormats(formats);
    forall i | 0 <= i < |ordered| ensures ',' !in ordered[i] {
      assert ordered[i] in ordered;
    }
  }

  /** The record keys, in the order the builder writes them. */
  const TXT_KEYS: seq<string> := ["txtvers", "qtotal", "Transparent", "URF", "rp", "note", "product",
                                  "printer-state", "printer-type", "pdl", "adminurl"]

  /** The values of the records, in the order of `TXT_KEYS`. */
  function TxtValues(q: Queue, pdl: string): seq<string>
  {
    ["1", "1", "T", "none", q.uriPath, q.info, "(GPL Ghostscript)",
     Decimal(q.state), Hex(q.printerType), pdl, q.uri]
  }

  /** Each record is its schema key, `=`, and its value, and splits back into the two. */
  lemma TxtRecordsSplit(q: Queue, pdl: string)
    ensures |TxtRecords(q, pdl)| == |TXT_KEYS| == |TxtValues(q, pdl)|
    ensures forall i :: 0 <= i < |TXT_KEYS| ==>
              AvahiSearch.SplitKeyValue(TxtRecords(q, pdl)[i]) == (TXT_KEYS[i], TxtValues(q, pdl)[i])
  {
    var txt, values := TxtRecords(q, pdl), TxtValues(q, pdl);
    forall i | 0 <= i < |TXT_KEYS|
      ensures AvahiSearch.SplitKeyValue(txt[i]) == (TXT_KEYS[i], values[i])
    {
      assert txt[i] == TxtRecord(TXT_KEYS[i], values[i]);
      AvahiSearch.KeyValueRoundTrip(TXT_KEYS[i], values[i]);
    }
  }

  /**
    Read back with the DNS-SD normaliser, the records of a descriptor give
    exactly the schema keys, each with the value the builder wrote for it.
  */
  lemma TxtRecordsParse(q: Queue, pdl: string)
    ensures forall k :: k in AvahiSearch.TxtMap(TxtRecords(q, pdl)) <==> k in TXT_KEYS
    ensures forall i :: 0 <= i < |TXT_KEYS| ==>
              AvahiSearch.TxtMap(TxtRecords(q, pdl))[TXT_KEYS[i]] == TxtValues(q, pdl)[i]
    ensures AvahiSearch.TxtMap(TxtRecords(q, pdl))["pdl"] == pdl
  {
    TxtRecordsSplit(q, pdl);
    TxtKeysDistinct();
    ParsedRecords(TxtRecords(q, pdl), TXT_KEYS, TxtValues(q, pdl));
    assert TXT_KEYS[9] == "pdl" && TxtValues(q, pdl)[9] == pdl;
  }

  /** Entries that split into distinct keys parse to exactly those keys, each with its value. */
  lemma ParsedRecords(txt: seq<string>, keys: seq<string>, values: seq<string>)
    requires |txt| == |keys| == |values|
    requires forall i :: 0 <= i < |txt| ==> AvahiSearch.SplitKeyValue(txt[i]) == (keys[i], values[i])
    requires forall i, j :: 0 <= i < j < |keys| ==> keys[i] != keys[j]
    ensures forall k :: k in AvahiSearch.TxtMap(txt) <==> k in keys
    ensures forall i :: 0 <= i < |keys| ==> AvahiSearch.TxtMap(txt)[keys[i]] == values[i]
  {
    var m := AvahiSearch.TxtMap(txt);
    forall i | 0 <= i < |keys| ensures keys[i] in m && m[keys[i]] == values[i] {
      AvahiSearch.TxtMapLastWins(txt, i);
    }
    AvahiSearch.TxtMapKeys(txt);
    forall k | k in m ensures k in keys {
      var i :| 0 <= i < |txt| && AvahiSearch.KeyOf(txt[i]) == k;
      assert k == keys[i];
    }
  }

  /** No schema key occurs twice. */
  lemma TxtKeysDistinct()
    ensures forall i, j :: 0 <= i < j < |TXT_KEYS| ==> TXT_KEYS[i] != TXT_KEYS[j]
  {
  }



  // ---------------------------------------------------------------------
  // The loop over all queues

  /** The shared queues, in enumeration order. */
  function Shared(queues: seq<Queue>): seq<Queue>
  {
    if queues == [] then []
    else Shared(queues[..|queues| - 1]) + (if queues[|queues| - 1].shared then [queues[|queues| - 1]] else [])
  }

  /**
    The script: one descriptor per shared queue, in order, until a queue makes
    it stop; the descriptors written before that stay written.
  */
  method GenerateAll(queues: seq<Queue>) returns (written: seq<Output>, failure: Option<Failure>)
    ensures failure.None? ==> |written| == |Shared(queues)|
    ensures failure.Some? ==> |written| < |Shared(queues)| && FailsWith(Shared(queues)[|written|], failure.value)
    ensures |written| <= |Shared(queues)|
    ensures forall j :: 0 <= j < |written| ==> Describes(Shared(queues)[j], written[j])
  {
    written, failure := [], None;
    for i := 0 to |queues|
      invariant |written| == |Shared(queues[..i])|
      invariant forall j :: 0 <= j < |written| ==> Describes(Shared(queues[..i])[j], written[j])
    {
      assert queues[..i + 1][..i] == queues[..i];
      SharedPrefix(queues, i + 1);
      var q := queues[i];
      if q.shared {
        var r := Describe(q);
        if r.Err? {
          failure := Some(r.error);
          SharedPrefix(queues, i);
          return;
        }
        written := written + [r.value];
      }
    }
    assert queues[..|queues|] == queues;
  }

  /** Exactly the shared queues are kept, each as often as it occurs. */
  lemma {:induction false} SharedMembers(queues: seq<Queue>)
    ensures forall q :: q in Shared(queues) <==> q in queues && q.shared
    ensures multiset(Shared(queues)) <= multiset(queues)
    ensures forall i :: 0 <= i < |Shared(queues)| ==> Shared(queues)[i].shared
  {
    if queues != [] {
      var init := queues[..|queues| - 1];
      SharedMembers(init);
      assert queues == init + [queues[|queues| - 1]];
    }
  }

  /** Distinct queue names give distinct file names, so no descriptor overwrites another. */
  lemma FileNameInjective(p1: string, p2: string)
    requires FileName(p1) == FileName(p2)
    ensures p1 == p2
  {
    assert |p1| == |p2|;
    assert p1 == FileName(p1)[9..9 + |p1|];
  }

  /** The shared queues of a prefix are a prefix of the shared queues. */
  lemma {:induction false} SharedPrefix(queues: seq<Queue>, n: nat)
    requires n <= |queues|
    ensures |Shared(queues[..n])| <= |Shared(queues)|
    ensures Shared(queues[..n]) == Shared(queues)[..|Shared(queues[..n])|]
    decreases |queues| - n
  {
    if n < |queues| {
      SharedPrefix(queues[..|queues| - 1], n);
      assert queues[..|queues| - 1][..n] == queues[..n];
    } else {
      assert queues[..n] == queues;
    }
  }
}
