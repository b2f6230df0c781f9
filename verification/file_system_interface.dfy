/**
  The bag-metadata store: a mapping from bag file name to its description
  entry, reconciled against the bag directory's listing.

  File reads and writes are not performed here. The directory listing and the
  outcome of reading the description file are parameters. A call that
  completes (`Done`) writes the mapping it leaves back to the description
  file. A call that raises (`Raised`) never reaches that write: the file keeps
  its earlier contents, and only the in-memory mapping holds the state shown.
 */
module FileSystemInterface {
  import opened Maybe
  import opened Text

  /** One entry of the description file: `{"description": …, "date": …, "name": …}`. */
  datatype BagInfo = BagInfo(description: string, date: string, name: string)

  /** The in-memory `bagDescription` mapping, keyed by the bag's file name. */
  type Descriptions = map<string, BagInfo>

  /** The `(name, date)` pair extracted from a bag file name. */
  datatype ParsedName = ParsedName(name: string, date: string)

  /** The Python exceptions that can escape from the store's operations. */
  datatype Error =
    | IndexError                  // `_parsebagName` on a name without `_` before the first `.`
    | KeyError(key: string)       // `dict.pop` of a missing key
    | FileNotFound(file: string)  // `os.remove` of a missing file

  /**
    The result of a call on the store: the state it leaves behind, and the
    exception that escaped, if any. The store mutates itself in place, so an
    exception raised half-way keeps the changes made before it.
   */
  datatype Outcome<+S> = Done(state: S) | Raised(error: Error, state: S)

  /** The file name has an `_` before its first `.` (if it has a `.` at all). */
  ghost predicate UnderscoreBeforeDot(s: string) {
    exists i :: 0 <= i < |s| && s[i] == '_' && '.' !in s[..i]
  }

  /** Python's `s[lo:hi]` on the day, month and year positions of `yyyy-mm-dd`, as `dd-mm-yyyy`. */
  function ReformatDate(stamp: string): (date: string)
    // a full stamp: characters 8-9 become the day, 5-6 the month, 0-3 the year
    ensures |stamp| >= 10 ==> |date| == 10 && date[2] == '-' && date[5] == '-'
    ensures |stamp| >= 10 ==>
      date[..2] == stamp[8..10] && date[3..5] == stamp[5..7] && date[6..] == stamp[..4]
    // slicing clamps, so a stamp of at most four characters is all year
    ensures |stamp| <= 4 ==> date == "--" + stamp
  {
    var day, month, year := Slice(stamp, 8, 10), Slice(stamp, 5, 7), Slice(stamp, 0, 4);
    day + "-" + month + "-" + year
  }

  /**
    `_parsebagName`: the prefix is the text before the first `_` within the
    text before the first `.`; the date comes from the first ten characters of
    the next `_`-separated segment. Indexing the second segment raises
    `IndexError` when there is none.
   */
  function ParseBagName(bagName: string): (r: Result<ParsedName, Error>)
    ensures r.Ok? <==> UnderscoreBeforeDot(bagName)
    ensures r.Err? ==> r.error == IndexError
    // the name is the text up to the first `_`, which comes before any `.`
    ensures r.Ok? ==> r.value.name <= bagName
    ensures r.Ok? ==> '_' !in r.value.name && '.' !in r.value.name
    ensures r.Ok? ==> |r.value.name| < |bagName| && bagName[|r.value.name|] == '_'
  {
    var stem := Split(bagName, '.')[0];
    var segments := Split(stem, '_');
    StemFacts(bagName, stem);
    SplitFirst(stem, '_');
    if |segments| < 2 then
      Err(IndexError)
    else
      var date := Slice(segments[1], 0, 10);
      Ok(ParsedName(segments[0], ReformatDate(date)))
  }

  /** The link between the text before the first `.` and where the first `_` sits. */
  lemma StemFacts(bagName: string, stem: string)
    requires stem == Split(bagName, '.')[0]
    ensures '_' in stem <==> UnderscoreBeforeDot(bagName)
    ensures '.' !in stem && stem <= bagName
  {
    SplitFirst(bagName, '.');
    if '_' in stem {
      var i :| 0 <= i < |stem| && stem[i] == '_';
      assert bagName[..i] == stem[..i];
      assert bagName[i] == '_';
    }
    if UnderscoreBeforeDot(bagName) {
      var i :| 0 <= i < |bagName| && bagName[i] == '_' && '.' !in bagName[..i];
      assert stem[i] == '_';
    }
  }

  /**
    Every name following the `{prefix}_{timestamp}` convention parses to its
    prefix and the `dd-mm-yyyy` form of the timestamp's leading `yyyy-mm-dd`.
    `rest` is whatever follows the timestamp: nothing, an extension such as
    `.bag`, or a further `_` segment.
   */
  lemma ParseConvention(prefix: string, stamp: string, rest: string)
    requires '_' !in prefix && '.' !in prefix
    requires '_' !in stamp && '.' !in stamp
    requires rest == [] || rest[0] == '.' || rest[0] == '_'
    ensures ParseBagName(prefix + "_" + stamp + rest)
         == Ok(ParsedName(prefix, ReformatDate(stamp)))
    ensures |stamp| >= 10 ==> |ReformatDate(stamp)| == 10
  {
    var bagName := prefix + "_" + stamp + rest;
    var head := prefix + "_" + stamp;
    var tail := StemOfConvention(head, rest);
    var stem := Split(bagName, '.')[0];
    assert stem == prefix + "_" + stamp + tail;
    SegmentsOfStem(prefix, stamp, tail);
    var segments := Split(stem, '_');
    assert segments[0] == prefix && segments[1] == stamp;
    SliceTen(stamp);
  }

  /** Cutting a timestamp to its first ten characters keeps its day, month and year. */
  lemma SliceTen(stamp: string)
    ensures ReformatDate(Slice(stamp, 0, 10)) == ReformatDate(stamp)
    ensures |stamp| >= 10 ==> |ReformatDate(stamp)| == 10
  {
  }

  /** The text before the first `.` is `head` followed by nothing or by a `_`-led piece. */
  lemma StemOfConvention(head: string, rest: string) returns (tail: string)
    requires '.' !in head
    requires rest == [] || rest[0] == '.' || rest[0] == '_'
    ensures Split(head + rest, '.')[0] == head + tail
    ensures tail == [] || tail[0] == '_'
  {
    if rest == [] {
      assert head + rest == head;
      SplitFree(head, '.');
      tail := [];
    } else if rest[0] == '.' {
      assert head + rest == head + ['.'] + rest[1..];
      SplitAtFirst(head, rest[1..], '.');
      tail := [];
    } else {
      assert head + rest == (head + "_") + rest[1..];
      SplitFreeHead(head + "_", rest[1..], '.');
      tail := "_" + Split(rest[1..], '.')[0];
    }
  }

  /** Splitting `prefix_stamp…` on `_` gives the prefix, then the timestamp. */
  lemma SegmentsOfStem(prefix: string, stamp: string, tail: string)
    requires '_' !in prefix && '_' !in stamp
    requires tail == [] || tail[0] == '_'
    ensures |Split(prefix + "_" + stamp + tail, '_')| >= 2
    ensures Split(prefix + "_" + stamp + tail, '_')[0] == prefix
    ensures Split(prefix + "_" + stamp + tail, '_')[1] == stamp
  {
    assert prefix + "_" + stamp + tail == prefix + ['_'] + (stamp + tail);
    SplitAtFirst(prefix, stamp + tail, '_');
    if tail == [] {
      assert stamp + tail == stamp;
      SplitFree(stamp, '_');
    } else {
      assert stamp + tail == stamp + ['_'] + tail[1..];
      SplitAtFirst(stamp, tail[1..], '_');
    }
  }

  /** A typical recorded name. */
  lemma ParseExample(bagName: string)
    requires bagName == "run1" + "_" + "2024-03-05-10-30-00" + ".bag"
    ensures ParseBagName(bagName) == Ok(ParsedName("run1", "05-03-2024"))
  {
    var stamp := "2024-03-05-10-30-00";
    ParseConvention("run1", stamp, ".bag");
    DateExample(stamp);
  }

  lemma DateExample(stamp: string)
    requires stamp == "2024-03-05-10-30-00"
    ensures ReformatDate(stamp) == "05-03-2024"
  {
    assert Slice(stamp, 8, 10) == stamp[8..10] == "05";
    assert Slice(stamp, 5, 7) == stamp[5..7] == "03";
    assert Slice(stamp, 0, 4) == stamp[0..4] == "2024";
  }

  /** A name without `_` before its first `.` cannot be parsed. */
  lemma ParseWithoutUnderscore(bagName: string)
    requires '_' !in bagName
    ensures ParseBagName(bagName) == Err(IndexError)
  {
  }

  /** `_loadBagFileNames`: the entries of the listing that end in `.bag`, in listing order. */
  function BagFileNames(listing: seq<string>): (names: seq<string>)
    ensures forall x :: x in names <==> x in listing && EndsWith(x, ".bag")
    ensures |names| <= |listing|
    decreases |listing|
  {
    if |listing| == 0 then []
    else if EndsWith(listing[0], ".bag") then [listing[0]] + BagFileNames(listing[1..])
    else BagFileNames(listing[1..])
  }

  /** The filter keeps listing order: it distributes over concatenation of listings. */
  lemma {:induction false} BagFileNamesAppend(a: seq<string>, b: seq<string>)
    ensures BagFileNames(a + b) == BagFileNames(a) + BagFileNames(b)
    decreases |a|
  {
    if |a| == 0 {
      assert a + b == b;
    } else {
      assert (a + b)[0] == a[0];
      assert (a + b)[1..] == a[1..] + b;
      BagFileNamesAppend(a[1..], b);
    }
  }

  /** The entry `_syncFilesWithJson` creates for a newly listed bag. */
  ghost predicate IsNewEntry(bagName: string, info: BagInfo) {
    ParseBagName(bagName) == Ok(ParsedName(info.name, info.date)) && info.description == ""
  }

  /**
    First loop of `_syncFilesWithJson`: every listed name missing from the
    mapping is added, in listing order, with an empty description. A name that
    cannot be parsed raises `IndexError`, keeping the entries added before it.
   */
  function AddMissing(m: Descriptions, names: seq<string>): (r: Outcome<Descriptions>)
    ensures r.Done? <==> forall k :: k in names ==> k in m || ParseBagName(k).Ok?
    ensures r.Raised? ==> r.error == IndexError
    ensures forall k :: k in m ==> k in r.state && r.state[k] == m[k]
    ensures forall k :: k in r.state && k !in m ==> k in names && IsNewEntry(k, r.state[k])
    ensures r.Done? ==> forall k :: k in names ==> k in r.state
    decreases |names|
  {
    if |names| == 0 then Done(m)
    else if names[0] in m then AddMissing(m, names[1..])
    else
      match ParseBagName(names[0])
      case Err(e) => Raised(e, m)
      case Ok(p) => AddMissing(m[names[0] := BagInfo("", p.date, p.name)], names[1..])
  }

  /** Second loop of `_syncFilesWithJson`: drop every key that is not listed. */
  function Prune(m: Descriptions, names: seq<string>): (r: Descriptions)
    ensures forall k :: k in r <==> k in m && k in names
    ensures forall k :: k in r ==> r[k] == m[k]
  {
    map k | k in m && k in names :: m[k]
  }

  /**
    `_syncFilesWithJson`: afterwards the keys are exactly the listed names;
    entries already present keep their value, new ones get an empty
    description and the parsed name and date. When a new name cannot be
    parsed the exception escapes before anything is dropped.
   */
  function Sync(m: Descriptions, names: seq<string>): (r: Outcome<Descriptions>)
    ensures r.Done? <==> forall k :: k in names ==> k in m || ParseBagName(k).Ok?
    ensures r.Done? ==> forall k :: k in r.state <==> k in names
    ensures r.Done? ==> forall k :: k in names && k in m ==> r.state[k] == m[k]
    ensures r.Done? ==> forall k :: k in names && k !in m ==> IsNewEntry(k, r.state[k])
    ensures r.Raised? ==> r.error == IndexError
    ensures r.Raised? ==> forall k :: k in m ==> k in r.state && r.state[k] == m[k]
  {
    match AddMissing(m, names)
    case Raised(e, partial) => Raised(e, partial)
    case Done(added) => Done(Prune(added, names))
  }

  /** A second sync against the same listing changes nothing. */
  lemma SyncIdempotent(m: Descriptions, names: seq<string>, m1: Descriptions)
    requires Sync(m, names) == Done(m1)
    ensures Sync(m1, names) == Done(m1)
  {
    AddMissingPresent(m1, names);
    assert Prune(m1, names) == m1;
  }

  /** When every listed name is already a key, adding the missing ones adds nothing. */
  lemma {:induction false} AddMissingPresent(m: Descriptions, names: seq<string>)
    requires forall k :: k in names ==> k in m
    ensures AddMissing(m, names) == Done(m)
    decreases |names|
  {
    if |names| > 0 {
      assert names[0] in names;
      assert forall k :: k in names[1..] ==> k in names;
      AddMissingPresent(m, names[1..]);
    }
  }

  /**
    `loadDescriptionJson`: `json` is the parsed description file, `None` when
    opening it raises `IOError` or its text is not valid JSON, which counts as
    the empty mapping; the mapping is then synced against the `.bag` files of
    the listing. The load completes unless a listed `.bag` name that the file
    does not already hold cannot be parsed.
   */
  function Load(listing: seq<string>, json: Option<Descriptions>): (r: Outcome<Descriptions>)
    ensures r.Done? <==>
      forall k :: k in listing && EndsWith(k, ".bag") && k !in FileContents(json) ==> ParseBagName(k).Ok?
    ensures r.Raised? ==> r.error == IndexError
    ensures r.Done? ==> forall k :: k in r.state <==> k in listing && EndsWith(k, ".bag")
    ensures r.Done? ==> forall k :: k in r.state && k !in FileContents(json) ==> IsNewEntry(k, r.state[k])
    ensures json.Some? && r.Done? ==>
      forall k :: k in r.state && k in json.value ==> r.state[k] == json.value[k]
  {
    Sync(FileContents(json), BagFileNames(listing))
  }

  /** The mapping a load starts from: the file's contents, or empty when it could not be read. */
  function FileContents(json: Option<Descriptions>): Descriptions {
    if json.Some? then json.value else map[]
  }

  /** Loading again after the store has rewritten the file, with the directory unchanged, gives the same mapping. */
  lemma LoadTwice(listing: seq<string>, json: Option<Descriptions>, m1: Descriptions)
    requires Load(listing, json) == Done(m1)
    ensures Load(listing, Some(m1)) == Done(m1)
  {
    SyncIdempotent(FileContents(json), BagFileNames(listing), m1);
  }

  /**
    `addBag`: insert or overwrite the entry of `bagName` with the given
    description and the parsed name and date. A name that cannot be parsed
    raises before the mapping is touched.
   */
  function AddBag(m: Descriptions, bagName: string, description: string): (r: Outcome<Descriptions>)
    ensures r.Done? <==> UnderscoreBeforeDot(bagName)
    ensures r.Raised? ==> r.error == IndexError && r.state == m
    ensures r.Done? ==> bagName in r.state && r.state[bagName].description == description
    ensures r.Done? ==> ParseBagName(bagName)
                        == Ok(ParsedName(r.state[bagName].name, r.state[bagName].date))
    ensures r.Done? ==> forall k :: k in r.state <==> k in m || k == bagName
    ensures forall k :: k in m && k != bagName ==> k in r.state && r.state[k] == m[k]
  {
    match ParseBagName(bagName)
    case Err(e) => Raised(e, m)
    case Ok(p) => Done(m[bagName := BagInfo(description, p.date, p.name)])
  }

  /**
    `removeBag`: pop the entry, then delete the file from the directory
    `files`. A missing key raises `KeyError` with nothing changed; a key whose
    file is already gone raises `FileNotFoundError` after the entry was popped.
   */
  function RemoveBag(m: Descriptions, files: set<string>, bagName: string)
    : (r: Outcome<(Descriptions, set<string>)>)
    ensures r.Done? <==> bagName in m && bagName in files
    ensures bagName !in m ==> r == Raised(KeyError(bagName), (m, files))
    ensures bagName in m && bagName !in files ==> r.error == FileNotFound(bagName)
    ensures r.state.1 == files - (if r.Done? then {bagName} else {})
    ensures bagName in m ==> forall k :: k in r.state.0 <==> k in m && k != bagName
    ensures forall k :: k in r.state.0 ==> k in m && r.state.0[k] == m[k]
  {
    if bagName !in m then Raised(KeyError(bagName), (m, files))
    else
      var popped := map k | k in m && k != bagName :: m[k];
      if bagName !in files then Raised(FileNotFound(bagName), (popped, files))
      else Done((popped, files - {bagName}))
  }
}
