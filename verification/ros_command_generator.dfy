/**
  `generateRosBagRecordCommand`: the `rosbag record` command line built from
  the bag directory, a bag-name prefix, an ordered option mapping and the
  topics to record. No clock is consulted: the output argument is the
  directory followed by the prefix, with no timestamp and no `.bag` suffix.
 */
module RosCommandGenerator {
  import opened Text

  /** One `key: value` item of the options dictionary, kept in insertion order. */
  datatype Flag = Flag(key: string, value: string)

  /** The options as command-line words: each key followed by its value. */
  function FlagWords(options: seq<Flag>): (words: seq<string>)
    ensures |words| == 2 * |options|
    ensures forall i :: 0 <= i < |options| ==> words[2 * i] == options[i].key
    ensures forall i :: 0 <= i < |options| ==> words[2 * i + 1] == options[i].value
    decreases |options|
  {
    if |options| == 0 then []
    else [options[0].key, options[0].value] + FlagWords(options[1..])
  }

  /** The argument vector the command line spells out, one element per word. */
  function Argv(bagDir: string, topicList: seq<string>, prefix: string, options: seq<Flag>)
    : seq<string>
  {
    ["rosbag", "record", "-o", bagDir + prefix] + FlagWords(options) + topicList
  }

  /** The command text, as the generator's string concatenation produces it. */
  function RecordCommand(bagDir: string, topicList: seq<string>, prefix: string, options: seq<Flag>)
    : string
  {
    "rosbag record" + " -o " + bagDir + (if prefix != "" then prefix else "")
    + Prefixed(FlagWords(options), ' ') + Prefixed(topicList, ' ')
  }

  /** Options concatenate word-wise. */
  lemma {:induction false} FlagWordsAppend(a: seq<Flag>, b: seq<Flag>)
    ensures FlagWords(a + b) == FlagWords(a) + FlagWords(b)
    decreases |a|
  {
    if |a| > 0 {
      var head := [a[0].key, a[0].value];
      assert FlagWords(a + b) == head + FlagWords(a[1..] + b) by {
        assert (a + b)[0] == a[0];
        assert (a + b)[1..] == a[1..] + b;
      }
      assert FlagWords(a[1..] + b) == FlagWords(a[1..]) + FlagWords(b) by {
        FlagWordsAppend(a[1..], b);
      }
      assert head + (FlagWords(a[1..]) + FlagWords(b)) == (head + FlagWords(a[1..])) + FlagWords(b);
    } else {
      assert a + b == b;
    }
  }

  /** Each further option contributes exactly `" " + key + " " + value` at the end. */
  lemma OptionStep(options: seq<Flag>, f: Flag)
    ensures Prefixed(FlagWords(options + [f]), ' ')
         == Prefixed(FlagWords(options), ' ') + " " + f.key + " " + f.value
  {
    var words := FlagWords(options);
    assert FlagWords(options + [f]) == words + [f.key, f.value] by {
      FlagWordsAppend(options, [f]);
      assert [f][1..] == [];
    }
    assert Prefixed(words + [f.key, f.value], ' ')
        == Prefixed(words, ' ') + Prefixed([f.key, f.value], ' ') by {
      PrefixedAppend(words, [f.key, f.value], ' ');
    }
    assert Prefixed([f.key, f.value], ' ') == " " + f.key + " " + f.value by {
      PrefixedAppend([f.key], [f.value], ' ');
      PrefixedSingle(f.key, ' ');
      PrefixedSingle(f.value, ' ');
      assert [f.key] + [f.value] == [f.key, f.value];
    }
  }

  /** Each further topic contributes exactly `" " + topic` at the end. */
  lemma TopicStep(topics: seq<string>, t: string)
    ensures Prefixed(topics + [t], ' ') == Prefixed(topics, ' ') + " " + t
  {
    PrefixedAppend(topics, [t], ' ');
    PrefixedSingle(t, ' ');
  }

  /**
    The command is its argument vector joined by single spaces: `rosbag`,
    `record`, `-o`, the directory immediately followed by the prefix, every
    option key and value in mapping order, then every topic in list order.
   */
  lemma CommandIsJoinedArgv(bagDir: string, topicList: seq<string>, prefix: string, options: seq<Flag>)
    ensures RecordCommand(bagDir, topicList, prefix, options)
         == Join(Argv(bagDir, topicList, prefix, options), ' ')
  {
    var output := bagDir + prefix;
    JoinedWords("rosbag", "record", "-o", output, FlagWords(options), topicList);
    assert "rosbag" + " " + "record" + " " + "-o" + " " + output == "rosbag record" + " -o " + output;
    assert (if prefix != "" then prefix else "") == prefix;
  }

  /** The join of a four-word head followed by more words, written out word by word. */
  lemma JoinedWords(w0: string, w1: string, w2: string, w3: string, words: seq<string>, topics: seq<string>)
    ensures Join([w0, w1, w2, w3] + words + topics, ' ')
         == w0 + " " + w1 + " " + w2 + " " + w3 + Prefixed(words, ' ') + Prefixed(topics, ' ')
  {
    var rest := words + topics;
    var head := Prefixed([w1, w2, w3], ' ');
    assert Join([w0, w1, w2, w3] + words + topics, ' ') == w0 + Prefixed([w1, w2, w3] + rest, ' ') by {
      assert [w0, w1, w2, w3] + words + topics == [w0] + ([w1, w2, w3] + rest);
      JoinHeadPrefixed(w0, [w1, w2, w3] + rest, ' ');
    }
    assert Prefixed([w1, w2, w3] + rest, ' ') == head + (Prefixed(words, ' ') + Prefixed(topics, ' ')) by {
      PrefixedAppend([w1, w2, w3], rest, ' ');
      PrefixedAppend(words, topics, ' ');
    }
    assert w0 + head == w0 + " " + w1 + " " + w2 + " " + w3 by {
      PrefixedThree(w1, w2, w3, ' ');
    }
    var p, q := Prefixed(words, ' '), Prefixed(topics, ' ');
    assert w0 + (head + (p + q)) == (w0 + head) + p + q;
  }

  /**
    Splitting the command at spaces recovers the argument vector whenever no
    argument contains a space; in particular the output argument is exactly
    the directory followed by the prefix.
   */
  lemma ArgvRoundTrip(bagDir: string, topicList: seq<string>, prefix: string, options: seq<Flag>)
    requires ' ' !in bagDir && ' ' !in prefix
    requires forall i :: 0 <= i < |options| ==> ' ' !in options[i].key && ' ' !in options[i].value
    requires forall i :: 0 <= i < |topicList| ==> ' ' !in topicList[i]
    ensures Split(RecordCommand(bagDir, topicList, prefix, options), ' ')
         == Argv(bagDir, topicList, prefix, options)
    ensures Split(RecordCommand(bagDir, topicList, prefix, options), ' ')[3] == bagDir + prefix
  {
    var argv := Argv(bagDir, topicList, prefix, options);
    var words := FlagWords(options);
    forall i | 0 <= i < |argv|
      ensures ' ' !in argv[i]
    {
      if i < 4 {
        assert argv[i] in ["rosbag", "record", "-o", bagDir + prefix];
      } else if i < 4 + |words| {
        var j := (i - 4) / 2;
        assert argv[i] == words[i - 4];
        if i - 4 == 2 * j {
          assert words[2 * j] == options[j].key;
        } else {
          assert i - 4 == 2 * j + 1;
          assert words[2 * j + 1] == options[j].value;
        }
      } else {
        assert argv[i] == topicList[i - 4 - |words|];
      }
    }
    CommandIsJoinedArgv(bagDir, topicList, prefix, options);
    SplitJoin(argv, ' ');
  }

  /** The command begins with the base invocation, the directory and the prefix, in that order. */
  lemma CommandBegins(bagDir: string, topicList: seq<string>, prefix: string, options: seq<Flag>)
    ensures "rosbag record -o " + bagDir + prefix <= RecordCommand(bagDir, topicList, prefix, options)
  {
    var head := "rosbag record -o " + bagDir + prefix;
    var tail := Prefixed(FlagWords(options), ' ') + Prefixed(topicList, ' ');
    assert RecordCommand(bagDir, topicList, prefix, options) == head + tail;
  }

  /** With no options and no topics the command is the base invocation and the output argument. */
  lemma BareCommand(bagDir: string, prefix: string)
    ensures RecordCommand(bagDir, [], prefix, []) == "rosbag record -o " + bagDir + prefix
  {
  }

  /** The generator's first loop: each option appended as `" " + key + " " + value`. */
  method AppendOptions(command: string, options: seq<Flag>) returns (result: string)
    ensures result == command + Prefixed(FlagWords(options), ' ')
  {
    result := command;
    var i := 0;
    while i < |options|
      invariant 0 <= i <= |options|
      invariant result == command + Prefixed(FlagWords(options[..i]), ' ')
    {
      assert options[..i + 1] == options[..i] + [options[i]];
      OptionStep(options[..i], options[i]);
      result := result + " " + options[i].key + " " + options[i].value;
      i := i + 1;
    }
    assert options[..i] == options;
  }

  /** The generator's second loop: each topic appended as `" " + topic`. */
  method AppendTopics(command: string, topicList: seq<string>) returns (result: string)
    ensures result == command + Prefixed(topicList, ' ')
  {
    result := command;
    var j := 0;
    while j < |topicList|
      invariant 0 <= j <= |topicList|
      invariant result == command + Prefixed(topicList[..j], ' ')
    {
      assert topicList[..j + 1] == topicList[..j] + [topicList[j]];
      TopicStep(topicList[..j], topicList[j]);
      result := result + " " + topicList[j];
      j := j + 1;
    }
    assert topicList[..j] == topicList;
  }

  /** `generateRosBagRecordCommand`: the base invocation, the output argument, then the two loops. */
  method GenerateRosBagRecordCommand(
    bagDir: string, topicList: seq<string>, prefix: string, options: seq<Flag>)
    returns (command: string)
    ensures command == Join(Argv(bagDir, topicList, prefix, options), ' ')
    ensures command == RecordCommand(bagDir, topicList, prefix, options)
  {
    command := "rosbag record";
    command := command + " -o " + bagDir;
    if prefix != "" {
      command := command + prefix;
    }
    command := AppendOptions(command, options);
    command := AppendTopics(command, topicList);
    CommandIsJoinedArgv(bagDir, topicList, prefix, options);
  }
}
