/**
 Go's `strings.Split` and `strings.Join` for a single-character separator,
 together with the facts that make them inverse to each other.
 */
module Strings {

  /** True iff no element of `parts` contains the separator `sep`. */
  predicate NoSep(parts: seq<string>, sep: char)
  {
    forall i :: 0 <= i < |parts| ==> sep !in parts[i]
  }

  /** Number of occurrences of `c` in `s`. */
  function Count(s: string, c: char): nat
  {
    if |s| == 0 then 0 else (if s[0] == c then 1 else 0) + Count(s[1..], c)
  }

  /** `strings.Join(parts, sep)`: the empty slice gives "", a single element is
      returned as is, otherwise the elements are glued with `sep` between them.
      So the join starts with the first piece, and a separator follows it
      exactly when more pieces do. */
  function Join(parts: seq<string>, sep: char): (s: string)
    ensures |parts| == 0 ==> s == ""
    ensures |parts| >= 1 ==> parts[0] <= s
    ensures |parts| == 1 ==> s == parts[0]
    ensures |parts| > 1 ==> |s| > |parts[0]| && s[|parts[0]|] == sep
  {
    if |parts| == 0 then ""
    else if |parts| == 1 then parts[0]
    else parts[0] + [sep] + Join(parts[1..], sep)
  }

  /** Joining separator-free pieces adds exactly one separator between each
      neighbouring pair, so `Split` recovers as many pieces as were joined. */
  lemma {:induction false} JoinCount(parts: seq<string>, sep: char)
    requires |parts| >= 1 && NoSep(parts, sep)
    ensures Count(Join(parts, sep), sep) == |parts| - 1
  {
    CountAbsent(parts[0], sep);
    if |parts| > 1 {
      var rest := Join(parts[1..], sep);
      assert NoSep(parts[1..], sep) by {
        assert forall i :: 0 <= i < |parts[1..]| ==> parts[1..][i] == parts[i + 1];
      }
      JoinCount(parts[1..], sep);
      CountConcat(parts[0], [sep] + rest, sep);
      CountConcat([sep], rest, sep);
      assert parts[0] + [sep] + rest == parts[0] + ([sep] + rest);
    }
  }

  /** A string without `c` has no occurrence of it. */
  lemma {:induction false} CountAbsent(s: string, c: char)
    requires c !in s
    ensures Count(s, c) == 0
  {
    if |s| > 0 {
      CountAbsent(s[1..], c);
    }
  }

  /** Occurrences add up over a concatenation. */
  lemma {:induction false} CountConcat(a: string, b: string, c: char)
    ensures Count(a + b, c) == Count(a, c) + Count(b, c)
  {
    if |a| == 0 {
      assert a + b == b;
    } else {
      assert (a + b)[1..] == a[1..] + b;
      CountConcat(a[1..], b, c);
    }
  }

  /** `strings.Split(s, sep)`: the maximal separator-free pieces of `s`, in
      order. Like Go, it returns one more piece than there are separators, so
      never the empty sequence ("" splits into [""]), and the pieces joined
      with `sep` give back `s`. */
  function Split(s: string, sep: char): (parts: seq<string>)
    ensures |parts| == Count(s, sep) + 1
    ensures NoSep(parts, sep)
    ensures Join(parts, sep) == s
    decreases |s|
  {
    if |s| == 0 then [""]
    else
      var rest := Split(s[1..], sep);
      if s[0] == sep then
        assert Join([""] + rest, sep) == [sep] + Join(rest, sep) by {
          assert ([""] + rest)[1..] == rest;
        }
        assert s == [s[0]] + s[1..];
        [""] + rest
      else
        JoinConsChar(s[0], rest, sep);
        assert s == [s[0]] + s[1..];
        [[s[0]] + rest[0]] + rest[1..]
  }

  /** Prepending a character to the first piece prepends it to the join. */
  lemma JoinConsChar(c: char, parts: seq<string>, sep: char)
    requires |parts| >= 1
    ensures Join([[c] + parts[0]] + parts[1..], sep) == [c] + Join(parts, sep)
  {
    var p := [[c] + parts[0]] + parts[1..];
    assert p[1..] == parts[1..];
  }

  /** In a separator-free head followed by a separator, that separator is
      the first one. */
  lemma FirstSepAt(x: string, r: string, sep: char)
    requires sep !in x
    ensures (x + [sep] + r)[|x|] == sep
    ensures forall i :: 0 <= i < |x| ==> (x + [sep] + r)[i] != sep
  {
    forall i | 0 <= i < |x|
      ensures (x + [sep] + r)[i] != sep
    {
      assert (x + [sep] + r)[i] == x[i];
    }
  }

  /** Two separator-free heads followed by a separator can only agree if the
      heads and the tails agree. */
  lemma FirstSepUnique(x: string, r1: string, y: string, r2: string, sep: char)
    requires sep !in x && sep !in y
    requires x + [sep] + r1 == y + [sep] + r2
    ensures x == y && r1 == r2
  {
    var t := x + [sep] + r1;
    FirstSepAt(x, r1, sep);
    FirstSepAt(y, r2, sep);
    assert |x| == |y|;
    assert x == t[..|x|] && y == t[..|y|];
    assert r1 == t[|x| + 1..] && r2 == t[|y| + 1..];
  }

  /** Join is injective on non-empty sequences of separator-free pieces. */
  lemma {:induction false} JoinInjective(a: seq<string>, b: seq<string>, sep: char)
    requires |a| >= 1 && |b| >= 1
    requires NoSep(a, sep) && NoSep(b, sep)
    requires Join(a, sep) == Join(b, sep)
    ensures a == b
  {
    // Join adds |a| - 1 and |b| - 1 separators, so |a| == |b|.
    JoinCount(a, sep);
    JoinCount(b, sep);
    if |a| > 1 {
      FirstSepUnique(a[0], Join(a[1..], sep), b[0], Join(b[1..], sep), sep);
      JoinInjective(a[1..], b[1..], sep);
      assert a == [a[0]] + a[1..] && b == [b[0]] + b[1..];
    }
  }

  /** Splitting a join of separator-free pieces gives the pieces back. */
  lemma SplitJoin(parts: seq<string>, sep: char)
    requires |parts| >= 1 && NoSep(parts, sep)
    ensures Split(Join(parts, sep), sep) == parts
  {
    JoinInjective(Split(Join(parts, sep), sep), parts, sep);
  }

  /** A character other than the separator occurs in a join iff it occurs in
      one of the pieces. */
  lemma {:induction false} JoinChars(parts: seq<string>, sep: char, c: char)
    requires c != sep
    ensures c in Join(parts, sep) <==> exists i :: 0 <= i < |parts| && c in parts[i]
  {
    if |parts| <= 1 {
    } else {
      JoinChars(parts[1..], sep, c);
      var j := Join(parts, sep);
      assert j == parts[0] + ([sep] + Join(parts[1..], sep));
      if c in Join(parts[1..], sep) {
        var i :| 0 <= i < |parts[1..]| && c in parts[1..][i];
        assert c in parts[i + 1];
      }
      if exists i :: 0 <= i < |parts| && c in parts[i] {
        var i :| 0 <= i < |parts| && c in parts[i];
        if i > 0 {
          assert c in parts[1..][i - 1];
        }
      }
    }
  }

  /** A character other than the separator occurs in `s` iff it occurs in one
      of the pieces `Split(s, sep)`. */
  lemma SplitChars(s: string, sep: char, c: char)
    requires c != sep
    ensures c in s <==> exists i :: 0 <= i < |Split(s, sep)| && c in Split(s, sep)[i]
  {
    JoinChars(Split(s, sep), sep, c);
  }

  /** Joining any contiguous block of the pieces of `s` introduces no
      character, other than the separator, that `s` lacks. */
  lemma JoinBlockChars(s: string, sep: char, a: nat, b: nat, c: char)
    requires a <= b <= |Split(s, sep)|
    requires c != sep
    ensures c in Join(Split(s, sep)[a..b], sep) ==> c in s
  {
    var parts := Split(s, sep);
    JoinChars(parts[a..b], sep, c);
    SplitChars(s, sep, c);
    if c in Join(parts[a..b], sep) {
      var i :| 0 <= i < |parts[a..b]| && c in parts[a..b][i];
      assert c in parts[a + i];
    }
  }

  /** Separator-free pieces around a separator-free middle piece stay
      separator-free. */
  lemma NoSepAround(a: seq<string>, d: string, b: seq<string>, sep: char)
    requires NoSep(a, sep) && NoSep(b, sep) && sep !in d
    ensures NoSep(a + [d] + b, sep)
  {
    var parts := a + [d] + b;
    forall i | 0 <= i < |parts|
      ensures sep !in parts[i]
    {
      if i < |a| {
        assert parts[i] == a[i];
      } else if i > |a| {
        assert parts[i] == b[i - |a| - 1];
      }
    }
  }

  /** A join of more than one piece is the first piece, a separator, and the
      join of the rest. */
  lemma JoinCons(x: string, parts: seq<string>, sep: char)
    requires |parts| >= 1
    ensures Join([x] + parts, sep) == x + [sep] + Join(parts, sep)
  {
    assert ([x] + parts)[1..] == parts;
  }

  /** Joining two non-empty lists is joining each and putting one separator
      between them. */
  lemma {:induction false} JoinAppend(x: seq<string>, y: seq<string>, sep: char)
    requires |x| >= 1 && |y| >= 1
    ensures Join(x + y, sep) == Join(x, sep) + [sep] + Join(y, sep)
  {
    if |x| == 1 {
      assert x + y == [x[0]] + y;
      JoinCons(x[0], y, sep);
    } else {
      assert x + y == [x[0]] + (x[1..] + y);
      assert x == [x[0]] + x[1..];
      JoinCons(x[0], x[1..] + y, sep);
      JoinCons(x[0], x[1..], sep);
      JoinAppend(x[1..], y, sep);
    }
  }

  /** Three pieces join to the pieces with a separator between each pair. */
  lemma JoinThree(a: string, b: string, c: string, sep: char)
    ensures Join([a, b, c], sep) == a + [sep] + b + [sep] + c
  {
    assert [a, b, c] == [a] + [b, c];
    JoinCons(a, [b, c], sep);
  }

  /** Five pieces join to the pieces with a separator between each pair. */
  lemma JoinFive(a: string, b: string, c: string, d: string, e: string, sep: char)
    ensures Join([a, b, c, d, e], sep) == a + [sep] + b + [sep] + c + [sep] + d + [sep] + e
  {
    assert [a, b, c, d, e] == [a] + [b, c, d, e];
    assert [b, c, d, e] == [b] + [c, d, e];
    JoinCons(a, [b, c, d, e], sep);
    JoinCons(b, [c, d, e], sep);
    JoinThree(c, d, e, sep);
  }

  /** A contiguous block of separator-free pieces is separator-free. */
  lemma NoSepBlock(parts: seq<string>, a: nat, b: nat, sep: char)
    requires a <= b <= |parts| && NoSep(parts, sep)
    ensures NoSep(parts[a..b], sep)
  {
    forall i | 0 <= i < b - a
      ensures sep !in parts[a..b][i]
    {
      assert parts[a..b][i] == parts[a + i];
    }
  }
}
