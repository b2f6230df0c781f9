/**
  How the record page and the bag list meet: `rosbag record -o <dir><prefix>`
  writes `<prefix>_<timestamp>.bag`, and the store later parses that name
  back. The prefix check admits `_` and `.`, which the parser treats as
  separators; the lemmas below say which prefixes survive the trip.
 */
module RecordedBags {
  import opened Maybe
  import opened Text
  import opened FileSystemInterface
  import RecordPresenter

  /** The file the recorder writes for an output prefix and its own timestamp. */
  function RecordedFileName(prefix: string, stamp: string): string {
    prefix + "_" + stamp + ".bag"
  }

  /** A prefix without `_` and `.` comes back as the bag's name, with the timestamp's date. */
  lemma RecordedNameParses(prefix: string, stamp: string)
    requires '_' !in prefix && '.' !in prefix
    requires '_' !in stamp && '.' !in stamp
    ensures ParseBagName(RecordedFileName(prefix, stamp))
         == Ok(ParsedName(prefix, ReformatDate(stamp)))
  {
    ParseConvention(prefix, stamp, ".bag");
  }

  /** A prefix holding `.` but no `_` yields a file name the parser rejects. */
  lemma DottedPrefixUnparsable(prefix: string, stamp: string)
    requires '.' in prefix && '_' !in prefix
    ensures ParseBagName(RecordedFileName(prefix, stamp)).Err?
  {
    var bagName := RecordedFileName(prefix, stamp);
    var d :| 0 <= d < |prefix| && prefix[d] == '.';
    assert bagName[d] == '.';
  }

  /** A prefix holding `_` is cut at its first `_`: the parsed name is not the prefix. */
  lemma UnderscorePrefixMisread(prefix: string, stamp: string)
    requires '_' in prefix && '.' !in prefix
    ensures ParseBagName(RecordedFileName(prefix, stamp)).Ok?
    ensures ParseBagName(RecordedFileName(prefix, stamp)).value.name != prefix
  {
    var bagName := RecordedFileName(prefix, stamp);
    var u :| 0 <= u < |prefix| && prefix[u] == '_';
    assert bagName[..|prefix|] == prefix;
    assert bagName[u] == '_';
    assert bagName[..u] == prefix[..u];
    assert '.' !in bagName[..u];
  }

  /** The recorded file ends in `.bag`, so loading always lists it. */
  lemma RecordedFileIsListed(prefix: string, stamp: string)
    ensures EndsWith(RecordedFileName(prefix, stamp), ".bag")
  {
    var name := RecordedFileName(prefix, stamp);
    assert name[|name| - 4..] == ".bag";
  }

  /**
    A bag recorded with a prefix the record page accepts, such as `v1.2`,
    makes every later load raise `IndexError` until its entry is in the
    description file.
   */
  lemma DottedPrefixBreaksLoad(listing: seq<string>, json: Option<Descriptions>, prefix: string, stamp: string)
    requires RecordPresenter.IsValidPrefix(prefix)
    requires '.' in prefix && '_' !in prefix
    requires RecordedFileName(prefix, stamp) in listing
    requires json.None? || RecordedFileName(prefix, stamp) !in json.value
    ensures Load(listing, json).Raised?
    ensures Load(listing, json).error == IndexError
  {
    var name := RecordedFileName(prefix, stamp);
    RecordedFileIsListed(prefix, stamp);
    DottedPrefixUnparsable(prefix, stamp);
    assert name in BagFileNames(listing);
  }

  /** `v1.2` passes the record page's prefix check. */
  lemma DottedPrefixAccepted(prefix: string)
    requires prefix == "v1.2"
    ensures RecordPresenter.IsValidPrefix(prefix) && '.' in prefix && '_' !in prefix
  {
    assert prefix[2] == '.';
  }
}
