/**
 * The JavaScript built-ins the server code leans on: `Array.prototype.indexOf`
 * (and the same search on strings), `lastIndexOf`, `String.prototype.trim` and
 * `String.prototype.split(",")`.
 */
module Js {

  /** `s.indexOf(x)`: the first position of `x`, or -1. */
  function IndexOf<T(==)>(s: seq<T>, x: T): (i: int)
    ensures -1 <= i < |s|
    ensures i == -1 <==> x !in s
    ensures 0 <= i ==> s[i] == x && x !in s[..i]
  {
    if s == [] then -1
    else if s[0] == x then 0
    else
      var k := IndexOf(s[1..], x);
      assert k >= 0 ==> s[..k + 1] == [s[0]] + s[1..][..k];
      if k == -1 then -1 else k + 1
  }

  /** `s.lastIndexOf(x)`: the last position of `x`, or -1. */
  function LastIndexOf<T(==)>(s: seq<T>, x: T): (i: int)
    ensures -1 <= i < |s|
    ensures i == -1 <==> x !in s
    ensures 0 <= i ==> s[i] == x && x !in s[i + 1..]
  {
    if s == [] then -1
    else if s[|s| - 1] == x then |s| - 1
    else
      var k := LastIndexOf(s[..|s| - 1], x);
      assert s == s[..|s| - 1] + [s[|s| - 1]];
      assert k >= 0 ==> s[k + 1..] == s[..|s| - 1][k + 1..] + [s[|s| - 1]];
      k
  }

  /** `s.length`: UTF-16 code units, two for a character outside the Basic Multilingual Plane. */
  function Utf16Length(s: string): (n: nat)
    ensures |s| <= n <= 2 * |s|
    ensures (forall k :: 0 <= k < |s| ==> s[k] as int < 0x1_0000) ==> n == |s|
  {
    if s == [] then 0 else (if s[0] as int < 0x1_0000 then 1 else 2) + Utf16Length(s[1..])
  }

  /** Lengths add up over concatenation. */
  lemma {:induction false} Utf16LengthAppend(a: string, b: string)
    ensures Utf16Length(a + b) == Utf16Length(a) + Utf16Length(b)
  {
    if a == [] {
      assert a + b == b;
    } else {
      assert (a + b)[1..] == a[1..] + b;
      Utf16LengthAppend(a[1..], b);
    }
  }

  /** A character below U+10000 is one unit; any other is a surrogate pair, two units. */
  lemma Utf16LengthChar(c: char)
    ensures Utf16Length([c]) == if c as int < 0x1_0000 then 1 else 2
  {
    assert [c][1..] == [];
  }

  /** The characters `trim` removes: ECMAScript WhiteSpace and LineTerminator. */
  predicate IsWhitespace(c: char) {
    || c == '\t' || c == '\n' || c == '\U{000B}' || c == '\U{000C}' || c == '\r' || c == ' '
    || c == '\U{00A0}' || c == '\U{1680}' || ('\U{2000}' <= c <= '\U{200A}')
    || c == '\U{2028}' || c == '\U{2029}' || c == '\U{202F}' || c == '\U{205F}'
    || c == '\U{3000}' || c == '\U{FEFF}'
  }

  /** A string that `trim` turns into "". */
  predicate Blank(s: string) {
    forall i :: 0 <= i < |s| ==> IsWhitespace(s[i])
  }

  function TrimStart(s: string): (r: string)
    ensures |r| <= |s| && r == s[|s| - |r|..]
    ensures Blank(s[..|s| - |r|])
    ensures r == [] || !IsWhitespace(r[0])
    ensures r == [] <==> Blank(s)
  {
    if s == [] || !IsWhitespace(s[0]) then s
    else
      assert Blank(s) <==> Blank(s[1..]) by {
        assert forall i :: 0 < i < |s| ==> s[i] == s[1..][i - 1];
      }
      TrimStart(s[1..])
  }

  function TrimEnd(s: string): (r: string)
    ensures |r| <= |s| && r == s[..|r|]
    ensures Blank(s[|r|..])
    ensures r == [] || !IsWhitespace(r[|r| - 1])
    ensures r == [] <==> Blank(s)
  {
    if s == [] || !IsWhitespace(s[|s| - 1]) then s
    else
      assert Blank(s) <==> Blank(s[..|s| - 1]) by {
        assert forall i :: 0 <= i < |s| - 1 ==> s[i] == s[..|s| - 1][i];
      }
      TrimEnd(s[..|s| - 1])
  }

  /** `s.trim()`: the string without its leading and trailing whitespace. */
  function Trim(s: string): (r: string)
    ensures exists i, j :: 0 <= i <= j <= |s| && r == s[i..j] && Blank(s[..i]) && Blank(s[j..])
    ensures r == "" <==> Blank(s)
    ensures r != "" ==> !IsWhitespace(r[0]) && !IsWhitespace(r[|r| - 1])
  {
    var t := TrimStart(s);
    assert t != [] ==> !Blank(t);
    var r := TrimEnd(t);
    TrimIsSlice(s, t, r);
    r
  }

  /** Trimming the start and then the end leaves a slice of the string. */
  lemma TrimIsSlice(s: string, t: string, r: string)
    requires |t| <= |s| && t == s[|s| - |t|..] && Blank(s[..|s| - |t|])
    requires |r| <= |t| && r == t[..|r|] && Blank(t[|r|..])
    ensures exists i, j :: 0 <= i <= j <= |s| && r == s[i..j] && Blank(s[..i]) && Blank(s[j..])
  {
    var i := |s| - |t|;
    var j := i + |r|;
    assert r == s[i..j];
    assert s[j..] == t[|r|..];
  }

  /** `s.split(",")`: the pieces between the commas, empty pieces included. */
  function Split(s: string): (r: seq<string>)
    ensures |r| >= 1
    ensures forall k :: 0 <= k < |r| ==> ',' !in r[k]
    decreases |s|
  {
    var i := IndexOf(s, ',');
    if i == -1 then [s] else [s[..i]] + Split(s[i + 1..])
  }

  /** `pieces.join(",")`. */
  function Join(pieces: seq<string>): string
    requires |pieces| >= 1
  {
    if |pieces| == 1 then pieces[0] else pieces[0] + "," + Join(pieces[1..])
  }

  /** `split` up to the first comma, then the rest. */
  lemma SplitAtFirstComma(s: string)
    requires ',' in s
    ensures var i := IndexOf(s, ','); Split(s) == [s[..i]] + Split(s[i + 1..])
  {
  }

  /** `join` of two or more pieces: the first, a comma, the join of the others. */
  lemma JoinCons(p: string, rest: seq<string>)
    requires |rest| >= 1
    ensures Join([p] + rest) == p + "," + Join(rest)
  {
    assert ([p] + rest)[1..] == rest;
  }

  /** Splitting at every comma loses nothing: joining the pieces gives back the string. */
  lemma {:induction false} JoinSplit(s: string)
    ensures Join(Split(s)) == s
    decreases |s|
  {
    var i := IndexOf(s, ',');
    if i != -1 {
      var rest := Split(s[i + 1..]);
      JoinSplit(s[i + 1..]);
      SplitAtFirstComma(s);
      JoinCons(s[..i], rest);
      CutAtComma(s, i);
    }
  }

  /** Cutting a string at a comma and gluing the two sides back with a comma gives the string. */
  lemma CutAtComma(s: string, i: int)
    requires 0 <= i < |s| && s[i] == ','
    ensures s[..i] + "," + s[i + 1..] == s
  {
    var r := s[..i] + "," + s[i + 1..];
    forall k | 0 <= k < |s| ensures r[k] == s[k] {
      if k > i {
        assert r[k] == s[i + 1..][k - i - 1];
      }
    }
  }

  /** The first `x` in `p + [x] + t` is the one after `p` when `p` holds none. */
  lemma {:induction false} IndexOfAfterPrefix<T>(p: seq<T>, x: T, t: seq<T>)
    requires x !in p
    ensures IndexOf(p + [x] + t, x) == |p|
  {
    if p != [] {
      IndexOfAfterPrefix(p[1..], x, t);
      assert (p + [x] + t)[1..] == p[1..] + [x] + t;
    }
  }

  /** And joining comma-free pieces and splitting again gives back the pieces. */
  lemma {:induction false} SplitJoin(pieces: seq<string>)
    requires |pieces| >= 1
    requires forall k :: 0 <= k < |pieces| ==> ',' !in pieces[k]
    ensures Split(Join(pieces)) == pieces
    decreases |pieces|
  {
    if |pieces| > 1 {
      var p := pieces[0];
      var tail := Join(pieces[1..]);
      var s := Join(pieces);
      assert pieces == [p] + pieces[1..];
      JoinCons(p, pieces[1..]);
      assert s == p + [','] + tail;
      IndexOfAfterPrefix(p, ',', tail);
      assert s[..|p|] == p;
      assert s[|p| + 1..] == tail;
      SplitJoin(pieces[1..]);
      SplitAtFirstComma(s);
    } else {
      assert IndexOf(pieces[0], ',') == -1;
    }
  }
}
