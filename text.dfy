/**
 * The two string operations the condition builder applies to a request
 * value: PHP's `strtolower` (restricted to ASCII A-Z) and `explode` on a
 * one-character delimiter, together with `implode`, its inverse.
 */
module Text {

  predicate IsAsciiUpper(c: char) {
    'A' <= c <= 'Z'
  }

  predicate IsAsciiLetter(c: char) {
    IsAsciiUpper(c) || 'a' <= c <= 'z'
  }

  /** Lower-cases one character: A-Z become a-z, everything else is kept. */
  function LowerChar(c: char): (r: char)
    ensures !IsAsciiUpper(r)
    ensures IsAsciiUpper(c) ==> r as int == c as int + 32
    ensures !IsAsciiUpper(c) ==> r == c
  {
    if IsAsciiUpper(c) then (c as int + 32) as char else c
  }

  /** `strtolower`: the same string with every ASCII capital lower-cased. */
  function Lower(s: string): (r: string)
    ensures |r| == |s|
    ensures forall i :: 0 <= i < |s| ==> r[i] == LowerChar(s[i])
    decreases |s|
  {
    if s == [] then [] else [LowerChar(s[0])] + Lower(s[1..])
  }

  /** `explode(d, s)` for a one-character delimiter `d`. */
  function Split(s: string, d: char): (r: seq<string>)
    ensures |r| >= 1
    ensures forall i :: 0 <= i < |r| ==> d !in r[i]
    decreases |s|
  {
    if s == [] then [""]
    else
      var rest := Split(s[1..], d);
      if s[0] == d then [""] + rest
      else [[s[0]] + rest[0]] + rest[1..]
  }

  /** `implode(d, ts)`: the tokens glued together with `d` between them. */
  function Join(ts: seq<string>, d: char): string
    decreases |ts|
  {
    if ts == [] then ""
    else if |ts| == 1 then ts[0]
    else ts[0] + [d] + Join(ts[1..], d)
  }

  /** Every element of `ts` lower-cased, in order. */
  function LowerAll(ts: seq<string>): (r: seq<string>)
    ensures |r| == |ts|
    ensures forall i :: 0 <= i < |ts| ==> r[i] == Lower(ts[i])
    decreases |ts|
  {
    if ts == [] then [] else [Lower(ts[0])] + LowerAll(ts[1..])
  }

  /** Number of occurrences of `c` in `s`. */
  function Occurrences(s: string, c: char): nat
    decreases |s|
  {
    if s == [] then 0 else (if s[0] == c then 1 else 0) + Occurrences(s[1..], c)
  }

  /** Lower-casing distributes over concatenation. */
  lemma LowerAppend(a: string, b: string)
    ensures Lower(a + b) == Lower(a) + Lower(b)
  {
    var ab := a + b;
    var l, la, lb := Lower(ab), Lower(a), Lower(b);
    forall i | 0 <= i < |ab|
      ensures l[i] == (la + lb)[i]
    {
      if i < |a| {
        calc { l[i]; LowerChar(ab[i]); LowerChar(a[i]); la[i]; }
      } else {
        calc { l[i]; LowerChar(ab[i]); LowerChar(b[i - |a|]); lb[i - |a|]; }
      }
    }
  }

  /** Lower-casing neither adds nor removes a character that is not a letter. */
  lemma LowerKeepsNonLetter(s: string, c: char)
    requires !IsAsciiLetter(c)
    ensures c in Lower(s) <==> c in s
  {
    var l := Lower(s);
    assert forall i :: 0 <= i < |s| ==> (l[i] == c <==> s[i] == c);
    if c in s {
      var i :| 0 <= i < |s| && s[i] == c;
      assert l[i] == c;
    }
    if c in l {
      var i :| 0 <= i < |l| && l[i] == c;
      assert s[i] == c;
    }
  }

  /** Joining the pieces of `s` with the delimiter gives `s` back. */
  lemma {:induction false} JoinSplit(s: string, d: char)
    ensures Join(Split(s, d), d) == s
    decreases |s|
  {
    if s != [] {
      var rest := Split(s[1..], d);
      JoinSplit(s[1..], d);
      if s[0] == d {
        assert Split(s, d) == [""] + rest;
        assert Join([""] + rest, d) == "" + [d] + Join(rest, d);
        assert s == [s[0]] + s[1..];
      } else {
        var r := Split(s, d);
        assert r == [[s[0]] + rest[0]] + rest[1..];
        if |rest| == 1 {
          assert Join(r, d) == [s[0]] + rest[0];
          assert s == [s[0]] + s[1..];
        } else {
          assert r[1..] == rest[1..];
          assert Join(r, d) == [s[0]] + rest[0] + [d] + Join(rest[1..], d);
          assert Join(rest, d) == rest[0] + [d] + Join(rest[1..], d);
          assert s == [s[0]] + s[1..];
        }
      }
    }
  }

  /** A string without the delimiter splits into itself alone. */
  lemma {:induction false} SplitWithoutDelimiter(s: string, d: char)
    requires d !in s
    ensures Split(s, d) == [s]
    decreases |s|
  {
    if s != [] {
      assert d !in s[1..];
      SplitWithoutDelimiter(s[1..], d);
      assert s == [s[0]] + s[1..];
    }
  }

  /** The split is a single piece exactly when the delimiter is absent. */
  lemma SplitSingleIff(s: string, d: char)
    ensures Split(s, d) == [s] <==> d !in s
    ensures |Split(s, d)| == 1 <==> d !in s
  {
    SplitCount(s, d);
    OccurrencesZeroIff(s, d);
    if d !in s {
      SplitWithoutDelimiter(s, d);
    }
  }

  lemma {:induction false} OccurrencesZeroIff(s: string, c: char)
    ensures Occurrences(s, c) == 0 <==> c !in s
    decreases |s|
  {
    if s != [] {
      OccurrencesZeroIff(s[1..], c);
      assert s == [s[0]] + s[1..];
    }
  }

  /** There is one more piece than there are delimiters. */
  lemma {:induction false} SplitCount(s: string, d: char)
    ensures |Split(s, d)| == Occurrences(s, d) + 1
    decreases |s|
  {
    if s != [] {
      SplitCount(s[1..], d);
    }
  }

  /** A token followed by the delimiter contributes exactly that token. */
  lemma {:induction false} SplitAfterToken(t: string, d: char, u: string)
    requires d !in t
    ensures Split(t + [d] + u, d) == [t] + Split(u, d)
    decreases |t|
  {
    if t == [] {
      assert [] + [d] + u == [d] + u;
      assert ([d] + u)[1..] == u;
    } else {
      assert d !in t[1..];
      SplitAfterToken(t[1..], d, u);
      var s := t + [d] + u;
      assert s[0] == t[0];
      assert s[1..] == t[1..] + [d] + u;
      assert t == [t[0]] + t[1..];
    }
  }

  /** Splitting a join of delimiter-free tokens gives the tokens back. */
  lemma {:induction false} SplitJoin(ts: seq<string>, d: char)
    requires |ts| >= 1
    requires forall i :: 0 <= i < |ts| ==> d !in ts[i]
    ensures Split(Join(ts, d), d) == ts
    decreases |ts|
  {
    if |ts| == 1 {
      SplitWithoutDelimiter(ts[0], d);
    } else {
      SplitJoin(ts[1..], d);
      SplitAfterToken(ts[0], d, Join(ts[1..], d));
      assert ts == [ts[0]] + ts[1..];
    }
  }

  /**
   * Lower-casing before splitting gives the lower-cased pieces of the
   * original, provided the delimiter is not a letter (lower-casing could
   * otherwise turn a capital into the delimiter).
   */
  lemma {:induction false} SplitLower(s: string, d: char)
    requires !IsAsciiLetter(d)
    ensures Split(Lower(s), d) == LowerAll(Split(s, d))
    decreases |s|
  {
    if s != [] {
      SplitLower(s[1..], d);
      var l := Lower(s);
      assert l[0] == LowerChar(s[0]);
      assert l[1..] == Lower(s[1..]);
      var rest := Split(s[1..], d);
      assert LowerChar(s[0]) == d <==> s[0] == d;
      if s[0] == d {
        assert LowerAll([""] + rest) == [""] + LowerAll(rest);
      } else {
        var lr := LowerAll(rest);
        assert Lower([s[0]] + rest[0]) == [LowerChar(s[0])] + Lower(rest[0]) by {
          assert ([s[0]] + rest[0])[1..] == rest[0];
        }
        assert LowerAll([[s[0]] + rest[0]] + rest[1..]) == [Lower([s[0]] + rest[0])] + LowerAll(rest[1..]);
        assert LowerAll(rest[1..]) == lr[1..];
      }
    }
  }
}
