# AirPrint descriptor generator and Avahi printer finder, modelled in Dafny

This project models two Python scripts.

- `airprint-generate.py` writes one Avahi service-group descriptor for each
  shared CUPS queue, so that iOS clients can discover the queue over AirPrint.
  The model covers:
  - the static document-type table;
  - the negotiation of the `pdl` text record. Formats the table allows come
    first, then formats the table does not know, each group in the order the
    queue reports them. Excluded formats are omitted. The list is joined with
    commas. Trailing entries are dropped until the value is shorter than 255
    characters;
  - the warning printed for dropped formats;
  - the ordered list of eleven text records;
  - the service name, file name and port;
  - the loop over queues, which skips queues that are not shared.
- `avahisearch.py` holds `AvahiPrinterFinder`, a D-Bus client that collects
  `_ipp._tcp` services. The model is a class with the finder's fields. It
  covers:
  - the constructor;
  - the item-new handler, which raises the activity flag and appends the
    resolved record;
  - the all-for-now handler;
  - the timer tick, which quits after one quiet interval;
  - the conversion of a TXT array into a dictionary, where later keys win.

The files are:

- `wrappers.dfy`: `Option` and `Result`.
- `text.dfy`: character search, comma join and split with their round trips,
  reversal, and decimal and hexadecimal digits with their round trip. These
  model the Python string operations the scripts use: `','.join`,
  `rsplit(',', 1)`, `split('=', 1)`, `'%d'` and `hex`.
- `avahisearch.dfy`: the finder.
- `airprint.dfy`: the descriptor builder.

The builder works step by step, so `Partition`, `Truncate` and `GenerateAll`
are methods with loops. Each is proved against a specification:

- `Partition` against `Select`;
- `Truncate` against the predicate `TruncationOf`;
- `GenerateAll` against `Describes` and `FailsWith` applied to the shared
  queues.

The lemmas beside them state the properties of those specifications.

Three points about the code's behaviour that the model follows:

- The 255-character bound applies to the bare `pdl` value, not to the record
  `pdl=<value>`.
- The file name is `airprint-<queue>.service` and the service name is
  `AirPlay <queue> @ %h`.
- Suppose the joined list is still 255 characters or longer and has no comma
  inside its first 255 characters. The code then does not keep going:
  `rsplit` returns a single piece and the two-way unpack raises. The model
  returns this case as the `PdlUnsplittable` failure. It is the `Stuck` case
  of `Truncate`.

## Model

| member | source | states |
|---|---|---|
| AirPrint.Partition | airprint-generate.py:104-112 | `fmts` holds exactly the formats the table allows and `defer` holds exactly the formats missing from the table, each in its input order |
| AirPrint.SelectMembers | airprint-generate.py:107-112 | a format is in the selection for a class if and only if it is supported and the table puts it in that class |
| AirPrint.SelectInOrder | airprint-generate.py:107-112 | each selection is a subsequence of the supported formats, so the relative order is kept |
| AirPrint.SelectPartitions | airprint-generate.py:107-112 | the allowed, excluded and deferred selections together are a permutation of the supported formats, so no format is lost or duplicated |
| AirPrint.OrderedFormats | airprint-generate.py:104-114 | the joined list holds exactly the formats the table does not exclude; every allowed format comes before every deferred one |
| AirPrint.ColorLaserJetFormats | airprint-generate.py:39-65 | PDF, PNG and an excluded X bitmap format give the value `application/pdf,image/png` |
| AirPrint.Truncate | airprint-generate.py:116-119 | the result is a truncation of the joined list: either a value shorter than 255 from which the dropped entries, in reverse, restore the input, or the stuck case. It sticks exactly when the input is 255 or longer and has no comma before position 255. Nothing is dropped exactly when the input is already short |
| AirPrint.TruncationUnique | airprint-generate.py:116-119 | a joined list has exactly one truncation, so the result is determined by the input |
| AirPrint.TruncationByEntries | airprint-generate.py:114-119 | for comma-free entries, the kept value is the join of a nonempty prefix of the entries and the dropped entries are the rest in reverse. Keeping one more entry would reach 255. The stuck case is a first entry of 255 characters or more |
| AirPrint.Describe | airprint-generate.py:68-129 | a queue with no URI port fails with `PortMissing`; an unsplittable list fails with `PdlUnsplittable`; otherwise the descriptor has the file name, service name, port, truncated `pdl` and the warning exactly when something was dropped |
| AirPrint.DescriptorUnique | airprint-generate.py:75-129 | a queue has at most one descriptor |
| AirPrint.DescriptorExcludesFailure | airprint-generate.py:81-119 | a queue that has a descriptor has no failure |
| AirPrint.DescribedPdl | airprint-generate.py:103-125 | for comma-free formats, the descriptor's `pdl` is a join of a prefix of the negotiated order, shorter than 255, with no excluded format; the dropped formats are the rest, in reverse, and keeping one more would reach 255 |
| AirPrint.NegotiatedPdl | airprint-generate.py:104-119 | for comma-free formats, a fitting truncation of the negotiated list keeps a prefix of the ordered formats and drops the rest in reverse; keeping one more would reach 255; no kept format is excluded |
| AirPrint.TxtRecordsSplit | airprint-generate.py:83-128 | splitting each of the eleven text records at its first `=` gives its key and its value, in the template-then-appended order |
| AirPrint.TxtRecordsParse | airprint-generate.py:83-128 | parsing the records as a TXT dictionary gives exactly the eleven keys, each with its value; `pdl` maps to the negotiated value |
| AirPrint.GenerateAll | airprint-generate.py:67-135 | the descriptors written are exactly those of the first shared queues, in order. On failure the next shared queue fails with the reported reason; otherwise every shared queue has its descriptor |
| AirPrint.SharedMembers | airprint-generate.py:67-68 | a queue is in the processed list if and only if it is in the input and shared |
| AirPrint.FileNameInjective | airprint-generate.py:135 | distinct queue names give distinct file names |
| AvahiSearch.SplitKeyValue | avahisearch.py:69-70 | the key has no `=`; with an `=` present, key, `=` and value rebuild the entry; without one, the whole entry is the key and the value is empty |
| AvahiSearch.KeyValueRoundTrip | avahisearch.py:69-70 | a key without `=` and any value survive `key=value` and back |
| AvahiSearch.TxtMapKeys | avahisearch.py:66-71 | the dictionary's keys are exactly the keys of the entries |
| AvahiSearch.TxtMapLastWins | avahisearch.py:67-71 | a key maps to the value of its last entry |
| AvahiSearch.PrinterFinder.TxtArrayToDict | avahisearch.py:66-71 | the loop builds the dictionary of the entries' key/value pairs, and its keys are exactly the entries' keys |
| AvahiSearch.PrinterFinder.constructor | avahisearch.py:26-32 | IPv4 only chooses the IPv4 protocol, otherwise unspecified; domain and verbosity are stored; service type `_ipp._tcp`; flag 0; no printers |
| AvahiSearch.PrinterFinder.ItemNew | avahisearch.py:34-52 | the activity flag becomes 1 and the resolved record, with its TXT dictionary, is appended; nothing else changes |
| AvahiSearch.PrinterFinder.AllForNow | avahisearch.py:54-56 | the main loop is asked to quit; nothing else changes |
| AvahiSearch.PrinterFinder.TimerTick | avahisearch.py:58-64 | the timer is kept exactly when events arrived since the last tick. If kept, the flag is reset. If not, the loop is asked to quit. The printers are unchanged |
| AvahiSearch.TwoQuietTicks | avahisearch.py:58-64 | with no events in between, the second of two ticks stops the timer and quits, whatever the starting state |
| Text.JoinSplit | airprint-generate.py:114-118 | splitting at commas and joining again gives back the text |
| Text.SplitJoin | airprint-generate.py:114-118 | joining comma-free parts and splitting again gives back the parts |
| Text.LastIndexOf | airprint-generate.py:118 | the position found is the last comma, or -1 exactly when there is none |
| Text.FirstIndexOf | avahisearch.py:69 | the position found is the first `=`, or -1 exactly when there is none |
| Text.DigitsRoundTrip | airprint-generate.py:81-100 | every digit is below the base and the digits of a number in base 2 to 16 read back to the number, so `'%d'` and `hex` lose nothing |

## Left out

- The CUPS connection (`getPrinters`, `getPrinterAttributes`) is external I/O. Each queue is an input `Queue` holding its attributes.
- `urlparse` is not modelled. The port and path of `printer-uri-supported` are inputs, and the port is absent when the URI has none.
- Building, serialising and pretty-printing the XML tree, the DOCTYPE and the file write are I/O. A descriptor is modelled as an `Output` value with a file name and a `Service` record. Writing it is modelled as returning it.
- The standard-error write is modelled as the warning string of the `Output`. `os.linesep` is written as `"\n"`.
- The `printer-state` value is modelled as a non-negative integer in decimal.
- `Text.Hex` covers non-negative values only. Python 2 appends `L` to the `hex` of a long integer; the model leaves that out.
- A dictionary with two equal keys keeps one entry. `DOCUMENT_TYPES` lists `image/png` twice with the same value, so the model writes it once.
- CUPS returns queues as a dictionary. The model takes them as a sequence in dictionary iteration order.
- Failures other than the missing port and the unsplittable list are left out, for example a missing attribute key.
- Python 2 measures a byte string in bytes. The model counts characters, which agree for ASCII MIME types.
- AirPrint.TruncationByEntries, AirPrint.DescribedPdl, AirPrint.NegotiatedPdl: these speak in entries only when the formats contain no comma. `Truncate` itself works on the joined text and covers every input.
- D-Bus is not modelled: `Search`, the service browser, signal wiring, `ResolveService`, the GLib timer registration and the main loop. The resolver's reply is an input `Resolved` record. `main_loop.quit()` is modelled as setting the `quitRequested` field.
- AvahiSearch.PrinterFinder.ItemNew: the browse arguments (interface, protocol, name, type, domain, flags) only feed `ResolveService`, so the method takes the resolved reply instead. `avahi.txt_array_to_string_array` is modelled as the reply already being a sequence of strings.
- The `verbose` prints, the option parser and the `__main__` blocks are console I/O.
- Avahi's protocol integer constants are modelled as the datatype `Protocol`.
