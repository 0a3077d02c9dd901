/**
 * The operations of Python's `str` that the scripts use: a substring search
 * (what `re.search` does with a pattern free of metacharacters),
 * `s.split(c)`, `c.join(fields)` and `s.rsplit(c, 1)`; and what reading a
 * file in text mode does to its line endings.
 */
module Text {
  import opened Wrappers

  /** `pat` occurs in `text` starting at index `i`. */
  predicate OccursAt(text: string, pat: string, i: nat) {
    i + |pat| <= |text| && text[i..i + |pat|] == pat
  }

  /** Substring search, scanning the start positions from left to right. */
  predicate Contains(text: string, pat: string)
    decreases |text|
  {
    pat <= text || (text != [] && Contains(text[1..], pat))
  }

  /** The scan finds `pat` exactly when it occurs at some index. */
  lemma {:induction false} ContainsIffOccurs(text: string, pat: string)
    ensures Contains(text, pat) <==> exists i: nat :: OccursAt(text, pat, i)
    decreases |text|
  {
    if pat <= text {
      assert OccursAt(text, pat, 0);
    } else if text != [] {
      ContainsIffOccurs(text[1..], pat);
      if Contains(text[1..], pat) {
        var i: nat :| OccursAt(text[1..], pat, i);
        assert text[i + 1..i + 1 + |pat|] == text[1..][i..i + |pat|];
        assert OccursAt(text, pat, i + 1);
      }
      if exists i: nat :: OccursAt(text, pat, i) {
        var i: nat :| OccursAt(text, pat, i);
        assert i > 0;
        assert text[1..][i - 1..i - 1 + |pat|] == text[i..i + |pat|];
        assert OccursAt(text[1..], pat, i - 1);
      }
    }
  }

  /** Whatever surrounds it, a string placed in a text is found by the scan. */
  lemma ContainsInside(a: string, pat: string, b: string)
    ensures Contains(a + pat + b, pat)
  {
    var t := a + pat + b;
    assert t[|a|..|a| + |pat|] == pat;
    assert OccursAt(t, pat, |a|);
    ContainsIffOccurs(t, pat);
  }

  /** A text that lacks the first character of `pat` does not contain `pat`. */
  lemma {:induction false} NotContainsWithoutFirstChar(text: string, pat: string)
    requires pat != [] && pat[0] !in text
    ensures !Contains(text, pat)
    decreases |text|
  {
    if text != [] {
      assert text[0] != pat[0];
      NotContainsWithoutFirstChar(text[1..], pat);
    }
  }

  /**
   * A text is free of `pat` when a character that `pat` lacks sits at an
   * index every window of the length of `pat` covers.
   */
  lemma NotContainsCoveredChar(text: string, pat: string, k: nat)
    requires k < |text| && text[k] !in pat && |text| - |pat| <= k < |pat|
    ensures !Contains(text, pat)
  {
    ContainsIffOccurs(text, pat);
  }

  /** Python's `s.split(c)`: the fields between the occurrences of `c`; never empty, and one field exactly when `c` does not occur. */
  function Split(s: string, c: char): (fields: seq<string>)
    ensures |fields| >= 1
    ensures forall k :: 0 <= k < |fields| ==> c !in fields[k]
    ensures |fields| == 1 <==> c !in s
    ensures c !in s ==> fields == [s]
    decreases |s|
  {
    if s == [] then [""]
    else
      var rest := Split(s[1..], c);
      if s[0] == c then [""] + rest
      else
        assert c !in s[1..] ==> [s[0]] + s[1..] == s;
        [[s[0]] + rest[0]] + rest[1..]
  }

  /** Python's `c.join(fields)` for a non-empty list of fields. */
  function Join(fields: seq<string>, c: char): string
    requires |fields| >= 1
    decreases |fields|
  {
    if |fields| == 1 then fields[0] else fields[0] + [c] + Join(fields[1..], c)
  }

  /** Joining the fields of a split gives back the original string. */
  lemma {:induction false} JoinSplit(s: string, c: char)
    ensures Join(Split(s, c), c) == s
    decreases |s|
  {
    if s != [] {
      var rest := Split(s[1..], c);
      JoinSplit(s[1..], c);
      if s[0] == c {
        assert ([""] + rest)[1..] == rest;
      } else if |rest| > 1 {
        var fields := [[s[0]] + rest[0]] + rest[1..];
        assert fields[1..] == rest[1..];
        assert Join(rest, c) == rest[0] + [c] + Join(rest[1..], c);
      }
    }
  }

  /** A prefix free of `c` is glued onto the first field of what follows it. */
  lemma {:induction false} SplitPrefix(a: string, t: string, c: char)
    requires c !in a
    ensures Split(a + t, c) == [a + Split(t, c)[0]] + Split(t, c)[1..]
    decreases |a|
  {
    if a == [] {
      var fields := Split(t, c);
      assert a + t == t;
      assert a + fields[0] == fields[0];
      assert [fields[0]] + fields[1..] == fields;
    } else {
      assert (a + t)[1..] == a[1..] + t;
      SplitPrefix(a[1..], t, c);
      assert [a[0]] + (a[1..] + Split(t, c)[0]) == a + Split(t, c)[0];
    }
  }

  /** Splitting the join of `c`-free fields gives back the fields. */
  lemma {:induction false} SplitJoin(fields: seq<string>, c: char)
    requires |fields| >= 1
    requires forall k :: 0 <= k < |fields| ==> c !in fields[k]
    ensures Split(Join(fields, c), c) == fields
    decreases |fields|
  {
    if |fields| == 1 {
      SplitPrefix(fields[0], "", c);
      assert fields[0] + "" == fields[0];
    } else {
      var rest := Join(fields[1..], c);
      SplitJoin(fields[1..], c);
      SplitPrefix(fields[0], [c] + rest, c);
      var tail := [c] + rest;
      assert tail[0] == c && tail[1..] == rest;
      assert Split(tail, c) == [""] + fields[1..];
      assert Split(tail, c)[0] == "" && Split(tail, c)[1..] == fields[1..];
      assert fields[0] + tail == fields[0] + [c] + rest;
      assert fields[0] + "" == fields[0];
      assert fields == [fields[0]] + fields[1..];
    }
  }

  /**
   * Python's `s.rsplit(c, 1)` when it has two parts: the text before and
   * after the last `c`. `None` stands for the one-element list Python returns
   * when `c` does not occur.
   */
  function RSplitLast(s: string, c: char): (r: Option<(string, string)>)
    ensures r.None? <==> c !in s
    ensures r.Some? ==> r.value.0 + [c] + r.value.1 == s && c !in r.value.1
    decreases |s|
  {
    if s == [] then None
    else if s[|s| - 1] == c then Some((s[..|s| - 1], ""))
    else match RSplitLast(s[..|s| - 1], c)
      case None => None
      case Some(parts) => Some((parts.0, parts.1 + [s[|s| - 1]]))
  }

  /** The split is unique: when the tail after a `c` is free of `c`, rsplit finds exactly that `c`. */
  lemma {:induction false} RSplitLastOf(a: string, b: string, c: char)
    requires c !in b
    ensures RSplitLast(a + [c] + b, c) == Some((a, b))
    decreases |b|
  {
    var s := a + [c] + b;
    if b == [] {
      assert s[..|s| - 1] == a;
    } else {
      var b' := b[..|b| - 1];
      assert s[..|s| - 1] == a + [c] + b';
      assert s[|s| - 1] == b[|b| - 1];
      RSplitLastOf(a, b', c);
      assert b' + [b[|b| - 1]] == b;
    }
  }

  /**
   * What `f.read()` returns for a file opened in text mode with the default
   * universal newlines: every `\r\n` and every lone `\r` becomes `\n`.
   */
  function ReadText(stored: string): (r: string)
    ensures '\r' !in r
    ensures |r| <= |stored|
    decreases |stored|
  {
    if stored == [] then []
    else if stored[0] == '\r' then
      "\n" + ReadText(if |stored| > 1 && stored[1] == '\n' then stored[2..] else stored[1..])
    else [stored[0]] + ReadText(stored[1..])
  }

  /** Reading back gives exactly what was written when, and only when, it has no carriage return. */
  lemma {:induction false} ReadTextFixedIff(s: string)
    ensures ReadText(s) == s <==> '\r' !in s
    decreases |s|
  {
    if s != [] && '\r' !in s {
      ReadTextFixedIff(s[1..]);
      assert s == [s[0]] + s[1..];
    }
  }
}
