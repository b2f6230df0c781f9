/**
  String helpers with Python's semantics: `str.split` on one separator
  character, `sep.join`, `str.endswith` and clamped slicing `s[lo:hi]`.
 */
module Text {

  /** `s.endswith(suffix)` */
  predicate EndsWith(s: string, suffix: string)
    // `s` is some text followed by `suffix`
    ensures EndsWith(s, suffix) <==> |suffix| <= |s| && s == s[..|s| - |suffix|] + suffix
  {
    |suffix| <= |s| && s[|s| - |suffix|..] == suffix
  }

  /** `s[lo:hi]` for non-negative bounds: indices past the end are clamped. */
  function Slice(s: string, lo: nat, hi: nat): (r: string)
    ensures lo <= hi <= |s| ==> r == s[lo..hi]
    ensures lo <= |s| < hi ==> r == s[lo..]
    ensures |s| <= lo || hi <= lo ==> r == []
    ensures |r| <= |s|
  {
    var h := if hi <= |s| then hi else |s|;
    var l := if lo <= h then lo else h;
    s[l..h]
  }

  /** Adjacent slices concatenate: `s[lo:mid] + s[mid:hi] == s[lo:hi]`, clamping included. */
  lemma SliceConcat(s: string, lo: nat, mid: nat, hi: nat)
    requires lo <= mid <= hi
    ensures Slice(s, lo, mid) + Slice(s, mid, hi) == Slice(s, lo, hi)
  {
    if hi <= |s| {
      assert s[lo..hi] == s[lo..mid] + s[mid..hi];
    } else if mid <= |s| {
      assert s[lo..] == s[lo..mid] + s[mid..];
    }
  }

  /**
    `s.split(sep)`: the pieces of `s` between occurrences of `sep`.
    There is always at least one piece, and no piece contains `sep`.
   */
  function Split(s: string, sep: char): (parts: seq<string>)
    ensures |parts| >= 1
    ensures forall i :: 0 <= i < |parts| ==> sep !in parts[i]
    decreases |s|
  {
    if |s| == 0 then [""]
    else
      var rest := Split(s[1..], sep);
      if s[0] == sep then [""] + rest
      else [[s[0]] + rest[0]] + rest[1..]
  }

  /** `sep.join(parts)` for a one-character separator. */
  function Join(parts: seq<string>, sep: char): string
    decreases |parts|
  {
    if |parts| == 0 then ""
    else if |parts| == 1 then parts[0]
    else parts[0] + [sep] + Join(parts[1..], sep)
  }

  /** Each word preceded by one `sep`, concatenated: `"".join(sep + w for w in words)`. */
  function Prefixed(words: seq<string>, sep: char): string
    decreases |words|
  {
    if |words| == 0 then "" else [sep] + words[0] + Prefixed(words[1..], sep)
  }

  /**
    The first piece of a split is the text before the first separator, and
    there is more than one piece exactly when the separator occurs.
   */
  lemma {:induction false} SplitFirst(s: string, sep: char)
    ensures |Split(s, sep)| == 1 <==> sep !in s
    ensures Split(s, sep)[0] <= s
    ensures |Split(s, sep)[0]| < |s| ==> s[|Split(s, sep)[0]|] == sep
    decreases |s|
  {
    if |s| > 0 {
      var rest := Split(s[1..], sep);
      SplitFirst(s[1..], sep);
      if s[0] != sep {
        assert Split(s, sep) == [[s[0]] + rest[0]] + rest[1..];
        assert s == [s[0]] + s[1..];
        assert sep in s <==> sep in s[1..];
      } else {
        assert Split(s, sep) == [""] + rest;
      }
    }
  }

  /** Joining the pieces of a split puts the separators back: `sep.join(s.split(sep)) == s`. */
  lemma {:induction false} JoinSplit(s: string, sep: char)
    ensures Join(Split(s, sep), sep) == s
    decreases |s|
  {
    if |s| > 0 {
      var rest := Split(s[1..], sep);
      assert Join(rest, sep) == s[1..] by {
        JoinSplit(s[1..], sep);
      }
      assert s == [s[0]] + s[1..];
      if s[0] == sep {
        assert Split(s, sep) == [""] + rest;
        assert Join([""] + rest, sep) == "" + [sep] + Join(rest, sep) by {
          assert ([""] + rest)[1..] == rest;
        }
      } else {
        var parts := [[s[0]] + rest[0]] + rest[1..];
        assert Split(s, sep) == parts;
        if |rest| == 1 {
          assert Join(parts, sep) == [s[0]] + rest[0];
          assert Join(rest, sep) == rest[0];
        } else {
          assert Join(parts, sep) == ([s[0]] + rest[0]) + [sep] + Join(rest[1..], sep) by {
            assert parts[1..] == rest[1..];
          }
          assert Join(rest, sep) == rest[0] + [sep] + Join(rest[1..], sep);
        }
      }
    }
  }

  /** A non-separator character in front joins the first piece. */
  lemma SplitConsOther(c: char, u: string, sep: char)
    requires c != sep
    ensures Split([c] + u, sep) == [[c] + Split(u, sep)[0]] + Split(u, sep)[1..]
  {
    assert ([c] + u)[1..] == u;
  }

  /** Splitting text that starts with a separator-free chunk `a` extends the first piece by `a`. */
  lemma {:induction false} SplitFreeHead(a: string, t: string, sep: char)
    requires sep !in a
    ensures Split(a + t, sep) == [a + Split(t, sep)[0]] + Split(t, sep)[1..]
    decreases |a|
  {
    var st := Split(t, sep);
    if |a| > 0 {
      var u := a[1..] + t;
      var rest := Split(u, sep);
      assert rest == [a[1..] + st[0]] + st[1..] by {
        SplitFreeHead(a[1..], t, sep);
      }
      assert Split(a + t, sep) == [[a[0]] + rest[0]] + rest[1..] by {
        assert a + t == [a[0]] + u;
        SplitConsOther(a[0], u, sep);
      }
      assert [a[0]] + rest[0] == a + st[0] by {
        assert rest[0] == a[1..] + st[0];
        assert [a[0]] + a[1..] == a;
      }
      assert rest[1..] == st[1..];
    } else {
      assert a + t == t;
      assert a + st[0] == st[0];
      assert [st[0]] + st[1..] == st;
    }
  }

  /** A separator-free string splits into itself alone. */
  lemma SplitFree(a: string, sep: char)
    requires sep !in a
    ensures Split(a, sep) == [a]
  {
    SplitFreeHead(a, "", sep);
    assert a + "" == a;
  }

  /** A separator-free chunk followed by the separator becomes the first piece. */
  lemma SplitAtFirst(a: string, b: string, sep: char)
    requires sep !in a
    ensures Split(a + [sep] + b, sep) == [a] + Split(b, sep)
  {
    SplitFreeHead(a, [sep] + b, sep);
    assert a + [sep] + b == a + ([sep] + b);
    assert ([sep] + b)[1..] == b;
    assert Split([sep] + b, sep) == [""] + Split(b, sep);
    assert a + "" == a;
  }

  /** Splitting a join gives back the pieces, provided no piece contains the separator. */
  lemma {:induction false} SplitJoin(parts: seq<string>, sep: char)
    requires |parts| >= 1
    requires forall i :: 0 <= i < |parts| ==> sep !in parts[i]
    ensures Split(Join(parts, sep), sep) == parts
    decreases |parts|
  {
    if |parts| == 1 {
      SplitFree(parts[0], sep);
    } else {
      SplitJoin(parts[1..], sep);
      SplitAtFirst(parts[0], Join(parts[1..], sep), sep);
      assert [parts[0]] + parts[1..] == parts;
    }
  }

  /** Prefixing every word of a concatenation is prefixing each half. */
  lemma {:induction false} PrefixedAppend(a: seq<string>, b: seq<string>, sep: char)
    ensures Prefixed(a + b, sep) == Prefixed(a, sep) + Prefixed(b, sep)
    decreases |a|
  {
    if |a| > 0 {
      PrefixedAppend(a[1..], b, sep);
      assert (a + b)[1..] == a[1..] + b;
      assert (a + b)[0] == a[0];
    } else {
      assert a + b == b;
    }
  }

  /** A single prefixed word. */
  lemma PrefixedSingle(w: string, sep: char)
    ensures Prefixed([w], sep) == [sep] + w
  {
    assert [w][1..] == [];
  }

  /** Three prefixed words. */
  lemma PrefixedThree(a: string, b: string, c: string, sep: char)
    ensures Prefixed([a, b, c], sep) == [sep] + a + [sep] + b + [sep] + c
  {
    PrefixedAppend([a], [b, c], sep);
    PrefixedAppend([b], [c], sep);
    PrefixedSingle(a, sep);
    PrefixedSingle(b, sep);
    PrefixedSingle(c, sep);
    assert [a] + [b, c] == [a, b, c];
    assert [b] + [c] == [b, c];
  }

  /** A head word followed by separator-prefixed words is the join of the whole list. */
  lemma {:induction false} JoinHeadPrefixed(h: string, words: seq<string>, sep: char)
    ensures Join([h] + words, sep) == h + Prefixed(words, sep)
    decreases |words|
  {
    if |words| > 0 {
      JoinHeadPrefixed(words[0], words[1..], sep);
      assert ([h] + words)[1..] == [words[0]] + words[1..] == words;
    } else {
      assert [h] + words == [h];
    }
  }
}
