/**
 * Shell-style wildcard matching of a whole name, as `fnmatch.fnmatch` does it
 * on POSIX (case-sensitive): `*` stands for any run of characters, `?` for
 * exactly one, every other character for itself.
 */
module Wildcard {
  predicate Matches(name: string, pat: string)
    decreases |name| + |pat|
  {
    if pat == [] then name == []
    else if pat[0] == '*' then Matches(name, pat[1..]) || (name != [] && Matches(name[1..], pat))
    else name != [] && (pat[0] == '?' || pat[0] == name[0]) && Matches(name[1..], pat[1..])
  }

  /** A pattern without wildcard characters. */
  predicate IsLiteral(pat: string) {
    '*' !in pat && '?' !in pat
  }

  /** `*` alone matches every name. */
  lemma {:induction false} StarMatchesAll(name: string)
    ensures Matches(name, "*")
    decreases |name|
  {
    if name != [] {
      StarMatchesAll(name[1..]);
    }
  }

  /** Every name matches itself read as a pattern. */
  lemma {:induction false} MatchesSelf(s: string)
    ensures Matches(s, s)
    decreases |s|
  {
    if s != [] {
      MatchesSelf(s[1..]);
      if s[0] == '*' {
        assert Matches(s[1..], s[1..]);
        assert Matches(s[1..], s);
      }
    }
  }

  /** Matching is compositional: the concatenation of matches matches the concatenated pattern. */
  lemma {:induction false} MatchesConcat(a: string, p: string, b: string, q: string)
    requires Matches(a, p) && Matches(b, q)
    ensures Matches(a + b, p + q)
    decreases |a| + |p|
  {
    if p == [] {
      assert a + b == b;
      assert p + q == q;
    } else if p[0] == '*' {
      assert (p + q)[0] == '*' && (p + q)[1..] == p[1..] + q;
      if Matches(a, p[1..]) {
        MatchesConcat(a, p[1..], b, q);
      } else {
        MatchesConcat(a[1..], p, b, q);
        assert (a + b)[1..] == a[1..] + b;
      }
    } else {
      MatchesConcat(a[1..], p[1..], b, q);
      assert (a + b)[1..] == a[1..] + b;
      assert (p + q)[1..] == p[1..] + q;
    }
  }

  /** A literal pattern matches its own text and nothing else. */
  lemma {:induction false} LiteralMatchesIff(name: string, lit: string)
    requires IsLiteral(lit)
    ensures Matches(name, lit) <==> name == lit
    decreases |lit|
  {
    if lit == [] {
    } else {
      assert lit[0] != '*' && lit[0] != '?';
      assert IsLiteral(lit[1..]);
      if name != [] {
        LiteralMatchesIff(name[1..], lit[1..]);
        assert name == [name[0]] + name[1..];
        assert lit == [lit[0]] + lit[1..];
      }
    }
  }

  /** A literal followed by `*` matches exactly the names the literal begins. */
  lemma {:induction false} LiteralStarIff(name: string, lit: string)
    requires IsLiteral(lit)
    ensures Matches(name, lit + "*") <==> lit <= name
    decreases |lit|
  {
    if lit == [] {
      assert lit + "*" == "*";
      StarMatchesAll(name);
    } else {
      var p := lit + "*";
      assert p[0] == lit[0] && p[1..] == lit[1..] + "*";
      assert lit[0] != '*' && lit[0] != '?';
      assert IsLiteral(lit[1..]);
      if name != [] {
        LiteralStarIff(name[1..], lit[1..]);
        assert lit <= name <==> lit[0] == name[0] && lit[1..] <= name[1..];
      }
    }
  }
}
