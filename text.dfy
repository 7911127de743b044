/** String primitives used by the tutor, modelled on the Python `str` methods
    the three programs call: strip, upper, split, splitlines, `in` and
    split(sep).  Characters are Dafny `char`s; upper-casing is ASCII only and
    whitespace is a fixed set of characters. */
module Text {

  datatype Option<T> = None | Some(value: T)

  /** The characters that strip() and split() treat as whitespace. */
  const Whitespace: set<char> := {' ', '\t', '\n', '\r', '\U{000B}', '\U{000C}'}

  /** The characters at which splitlines() ends a line. */
  const LineBreaks: set<char> := {'\n', '\r', '\U{000B}', '\U{000C}'}

  function Last<T>(s: seq<T>): T
    requires |s| > 0
  {
    s[|s| - 1]
  }

  /** Every character of s is whitespace (the empty string included). */
  predicate Blank(s: string)
  {
    forall i :: 0 <= i < |s| ==> s[i] in Whitespace
  }

  // ---------------------------------------------------------------------
  // strip

  /** s without its leading characters from cs: Python's s.lstrip(cs). */
  function DropLeading(s: string, cs: set<char>): (r: string)
    ensures |r| <= |s|
    ensures r == [] || r[0] !in cs
    decreases |s|
  {
    if |s| > 0 && s[0] in cs then DropLeading(s[1..], cs) else s
  }

  /** lstrip removes a prefix, made of characters from cs only. */
  lemma {:induction false} DropLeadingIsSuffix(s: string, cs: set<char>)
    ensures var r := DropLeading(s, cs);
      && r == s[|s| - |r|..]
      && forall i :: 0 <= i < |s| - |r| ==> s[i] in cs
    decreases |s|
  {
    if |s| > 0 && s[0] in cs {
      DropLeadingIsSuffix(s[1..], cs);
    }
  }

  /** s without its trailing characters from cs: Python's s.rstrip(cs). */
  function DropTrailing(s: string, cs: set<char>): (r: string)
    ensures |r| <= |s|
    ensures r == [] || r[|r| - 1] !in cs
    decreases |s|
  {
    if |s| > 0 && s[|s| - 1] in cs then DropTrailing(s[..|s| - 1], cs) else s
  }

  /** rstrip removes a suffix, made of characters from cs only. */
  lemma {:induction false} DropTrailingIsPrefix(s: string, cs: set<char>)
    ensures var r := DropTrailing(s, cs);
      && r == s[..|r|]
      && forall i :: |r| <= i < |s| ==> s[i] in cs
    decreases |s|
  {
    if |s| > 0 && s[|s| - 1] in cs {
      DropTrailingIsPrefix(s[..|s| - 1], cs);
    }
  }

  /** Python's s.strip(cs): the slice of s that starts after its leading
      characters from cs and stops before its trailing ones. */
  function StripChars(s: string, cs: set<char>): (r: string)
    ensures |r| <= |s|
    ensures r == [] || (r[0] !in cs && r[|r| - 1] !in cs)
  {
    var d := DropLeading(s, cs);
    DropTrailingIsPrefix(d, cs);
    DropTrailing(d, cs)
  }

  /** Python's s.strip(). */
  function Strip(s: string): string
  {
    StripChars(s, Whitespace)
  }

  /** Stripping neither creates nor removes a non-whitespace character. */
  lemma StripOfBlank(s: string)
    ensures Blank(Strip(s)) <==> Blank(s)
  {
    var d := DropLeading(s, Whitespace);
    var r := DropTrailing(d, Whitespace);
    DropLeadingIsSuffix(s, Whitespace);
    DropTrailingIsPrefix(d, Whitespace);
    assert d != [] ==> d[0] == s[|s| - |d|];
    assert d != [] ==> r != [];
  }

  /** Leading characters from cs are exactly what lstrip removes. */
  lemma {:induction false} DropLeadingPrefix(p: string, s: string, cs: set<char>)
    requires forall i :: 0 <= i < |p| ==> p[i] in cs
    requires s == [] || s[0] !in cs
    ensures DropLeading(p + s, cs) == s
    decreases |p|
  {
    if p != [] {
      assert (p + s)[1..] == p[1..] + s;
      DropLeadingPrefix(p[1..], s, cs);
    }
  }

  /** A string whose ends are not in cs is its own strip. */
  lemma StripFixed(s: string, cs: set<char>)
    requires s == [] || (s[0] !in cs && s[|s| - 1] !in cs)
    ensures StripChars(s, cs) == s
  {
    DropLeadingPrefix([], s, cs);
    assert [] + s == s;
  }

  /** strip() is idempotent. */
  lemma StripIdempotent(s: string)
    ensures Strip(Strip(s)) == Strip(s)
  {
    StripFixed(Strip(s), Whitespace);
  }

  // ---------------------------------------------------------------------
  // upper

  /** str.upper() on one character, ASCII letters only. */
  function UpperChar(c: char): char
  {
    if 'a' <= c <= 'z' then (c as int - 32) as char else c
  }

  /** Python's s.upper(), ASCII letters only. */
  function Upper(s: string): (r: string)
    ensures |r| == |s|
  {
    seq(|s|, i requires 0 <= i < |s| => UpperChar(s[i]))
  }

  // ---------------------------------------------------------------------
  // split()

  /** The number of leading characters of s that are not in cs. */
  function SpanOutside(s: string, cs: set<char>): (n: nat)
    ensures n <= |s|
    ensures forall i :: 0 <= i < n ==> s[i] !in cs
    ensures n == |s| || s[n] in cs
    decreases |s|
  {
    if s == [] || s[0] in cs then 0 else 1 + SpanOutside(s[1..], cs)
  }

  /** A word of split(): non-empty and free of whitespace. */
  predicate IsWord(t: string)
  {
    t != [] && forall i :: 0 <= i < |t| ==> t[i] !in Whitespace
  }

  /** Python's s.split() with no argument: the maximal runs of non-whitespace
      characters of s, in order. */
  function Tokens(s: string): (ts: seq<string>)
    ensures forall t :: t in ts ==> IsWord(t)
    decreases |s|
  {
    var r := DropLeading(s, Whitespace);
    if r == [] then []
    else
      var n := SpanOutside(r, Whitespace);
      var rest := Tokens(r[n..]);
      assert IsWord(r[..n]);
      [r[..n]] + rest
  }

  /** split() finds a word exactly when the string is not blank. */
  lemma TokensEmptyIffBlank(s: string)
    ensures Tokens(s) == [] <==> Blank(s)
  {
    var r := DropLeading(s, Whitespace);
    DropLeadingIsSuffix(s, Whitespace);
    assert r != [] ==> r[0] == s[|s| - |r|];
  }

  /** A word followed by whitespace or nothing is the first token. */
  lemma TokensOfWord(w: string, rest: string)
    requires IsWord(w) && (rest == [] || rest[0] in Whitespace)
    ensures Tokens(w + rest) == [w] + Tokens(rest)
  {
    var s := w + rest;
    DropLeadingPrefix([], s, Whitespace);
    assert [] + s == s;
    SpanOfWord(w, rest);
    assert s[..|w|] == w && s[|w|..] == rest;
  }

  lemma {:induction false} SpanOfWord(w: string, rest: string)
    requires forall i :: 0 <= i < |w| ==> w[i] !in Whitespace
    requires rest == [] || rest[0] in Whitespace
    ensures SpanOutside(w + rest, Whitespace) == |w|
    decreases |w|
  {
    if w != [] {
      assert (w + rest)[1..] == w[1..] + rest;
      SpanOfWord(w[1..], rest);
    }
  }

  /** Blank leading characters do not change the tokens. */
  lemma TokensAfterBlank(ws: string, s: string)
    requires Blank(ws)
    ensures Tokens(ws + s) == Tokens(s)
  {
    DropLeadingBlank(ws, s);
    TokensOfDropped(ws + s);
    TokensOfDropped(s);
  }

  /** Two words joined by one space split into those two words. */
  lemma TokensOfTwo(a: string, b: string)
    requires IsWord(a) && IsWord(b)
    ensures Tokens(a + " " + b) == [a, b]
  {
    assert a + " " + b == a + (" " + b);
    TokensOfWord(a, " " + b);
    TokensAfterBlank(" ", b);
    assert b == b + [];
    TokensOfWord(b, []);
  }

  lemma TokensOfDropped(s: string)
    ensures Tokens(s) == Tokens(DropLeading(s, Whitespace))
  {
    var d := DropLeading(s, Whitespace);
    DropLeadingPrefix([], d, Whitespace);
    assert [] + d == d;
  }

  lemma {:induction false} DropLeadingBlank(ws: string, s: string)
    requires Blank(ws)
    ensures DropLeading(ws + s, Whitespace) == DropLeading(s, Whitespace)
    decreases |ws|
  {
    if ws != [] {
      assert (ws + s)[0] == ws[0];
      assert (ws + s)[1..] == ws[1..] + s;
      DropLeadingBlank(ws[1..], s);
    } else {
      assert ws + s == s;
    }
  }

  /** The first word of a reply survives strip(): split() on the stripped
      reply starts with the first maximal run of non-whitespace. */
  lemma FirstTokenOfStripped(ws: string, w: string, rest: string)
    requires Blank(ws) && IsWord(w) && (rest == [] || rest[0] in Whitespace)
    ensures Tokens(Strip(ws + w + rest)) != []
    ensures Tokens(Strip(ws + w + rest))[0] == w
  {
    var x := w + rest;
    Associative(ws, w, rest);
    assert x[0] == w[0];
    StripAfterBlank(ws, x);
    var r := DropTrailing(x, Whitespace);
    DropTrailingKeepsWord(w, rest);
    var tail := rest[..|r| - |w|];
    assert tail != [] ==> tail[0] == rest[0];
    assert Strip(ws + w + rest) == w + tail;
    TokensOfWord(w, tail);
    assert ([w] + Tokens(tail))[0] == w;
  }

  lemma Associative(a: string, b: string, c: string)
    ensures a + b + c == a + (b + c)
  {
  }

  lemma StripAfterBlank(ws: string, x: string)
    requires Blank(ws) && (x == [] || x[0] !in Whitespace)
    ensures Strip(ws + x) == DropTrailing(x, Whitespace)
  {
    DropLeadingPrefix(ws, x, Whitespace);
  }

  /** rstrip() stops before it reaches a word's last character. */
  lemma DropTrailingKeepsWord(w: string, rest: string)
    requires IsWord(w)
    ensures var r := DropTrailing(w + rest, Whitespace);
      |r| >= |w| && r == w + rest[..|r| - |w|]
  {
    var d := w + rest;
    var r := DropTrailing(d, Whitespace);
    DropTrailingIsPrefix(d, Whitespace);
    assert d[|w| - 1] == w[|w| - 1];
    assert |r| >= |w|;
    assert d[..|r|] == w + rest[..|r| - |w|];
  }

  // ---------------------------------------------------------------------
  // find, `in`, split(sep)

  /** t occurs in s at position i. */
  predicate OccursAt(s: string, t: string, i: nat)
  {
    i + |t| <= |s| && s[i..i + |t|] == t
  }

  /** An occurrence past the first position of s is an occurrence in s[1..]. */
  lemma OccursShift(s: string, t: string)
    requires |s| > 0
    ensures forall j: nat :: 0 < j ==> (OccursAt(s, t, j) <==> OccursAt(s[1..], t, j - 1))
  {
    forall j: nat | 0 < j
      ensures OccursAt(s, t, j) <==> OccursAt(s[1..], t, j - 1)
    {
      if j + |t| <= |s| {
        assert s[1..][j - 1..] == s[j..];
        assert s[j..j + |t|] == s[j..][..|t|];
        assert s[1..][j - 1..j - 1 + |t|] == s[1..][j - 1..][..|t|];
      }
    }
  }

  /** Python's s.find(t) as an option: the first position of t in s. */
  function IndexOf(s: string, t: string): (r: Option<nat>)
    ensures r.Some? ==> OccursAt(s, t, r.value)
    decreases |s|
  {
    if |s| < |t| then None
    else if s[..|t|] == t then Some(0)
    else
      OccursShift(s, t);
      match IndexOf(s[1..], t)
      case Some(i) => Some(i + 1)
      case None => None
  }

  /** find returns the first occurrence, and -1 only when there is none. */
  lemma {:induction false} IndexOfIsFirst(s: string, t: string)
    ensures IndexOf(s, t).Some? ==> forall j: nat :: j < IndexOf(s, t).value ==> !OccursAt(s, t, j)
    ensures IndexOf(s, t).None? ==> forall j: nat :: !OccursAt(s, t, j)
    decreases |s|
  {
    if |s| >= |t| && s[..|t|] != t {
      OccursShift(s, t);
      assert !OccursAt(s, t, 0) by { assert s[0..|t|] == s[..|t|]; }
      IndexOfIsFirst(s[1..], t);
    }
  }

  /** Python's `t in s`. */
  predicate Contains(s: string, t: string)
  {
    IndexOf(s, t).Some?
  }

  /** An occurrence makes `t in s` true, and find returns it or an earlier one. */
  lemma OccursContains(s: string, t: string, j: nat)
    requires OccursAt(s, t, j)
    ensures Contains(s, t) && IndexOf(s, t).value <= j
  {
    IndexOfIsFirst(s, t);
  }

  /** Python's s.split(sep) for a non-empty separator: the pieces between the
      occurrences of sep found scanning from the left. */
  function SplitOn(s: string, sep: string): (parts: seq<string>)
    requires sep != []
    ensures |parts| >= 1
    ensures |parts| == 1 <==> !Contains(s, sep)
    ensures !Contains(s, sep) ==> parts == [s]
    decreases |s|
  {
    match IndexOf(s, sep)
    case None => [s]
    case Some(i) => [s[..i]] + SplitOn(s[i + |sep|..], sep)
  }

  /** Python's sep.join(parts). */
  function Join(parts: seq<string>, sep: string): string
    decreases |parts|
  {
    if |parts| == 0 then []
    else if |parts| == 1 then parts[0]
    else parts[0] + sep + Join(parts[1..], sep)
  }

  lemma JoinCons(a: string, ps: seq<string>, sep: string)
    requires |ps| >= 1
    ensures Join([a] + ps, sep) == a + sep + Join(ps, sep)
  {
    assert ([a] + ps)[1..] == ps;
  }

  /** Splitting at the first occurrence: the first piece, then the split of
      the rest. */
  lemma SplitStep(s: string, sep: string, i: nat)
    requires sep != [] && IndexOf(s, sep) == Some(i)
    ensures i + |sep| <= |s|
    ensures SplitOn(s, sep) == [s[..i]] + SplitOn(s[i + |sep|..], sep)
    ensures s == s[..i] + sep + s[i + |sep|..]
  {
    assert OccursAt(s, sep, i);
    var rest := s[i + |sep|..];
    assert s == s[..i] + sep + rest by {
      assert s[i..i + |sep|] == sep;
      assert s == s[..i] + s[i..i + |sep|] + rest;
    }
    assert SplitOn(s, sep) == [s[..i]] + SplitOn(rest, sep);
  }

  /** The last piece is the last piece of the split after the first
      occurrence. */
  lemma LastSplitStep(s: string, sep: string, i: nat)
    requires sep != [] && IndexOf(s, sep) == Some(i)
    ensures i + |sep| <= |s|
    ensures Last(SplitOn(s, sep)) == Last(SplitOn(s[i + |sep|..], sep))
  {
    SplitStep(s, sep, i);
    LastCons(s[..i], SplitOn(s[i + |sep|..], sep));
  }

  lemma LastCons<T>(x: T, ps: seq<T>)
    requires |ps| > 0
    ensures Last([x] + ps) == Last(ps)
  {
  }

  /** Splitting and joining again gives back the string. */
  lemma {:induction false} SplitJoin(s: string, sep: string)
    requires sep != []
    ensures Join(SplitOn(s, sep), sep) == s
    decreases |s|
  {
    match IndexOf(s, sep)
    case None =>
    case Some(i) =>
      var rest := s[i + |sep|..];
      SplitStep(s, sep, i);
      SplitJoin(rest, sep);
      JoinCons(s[..i], SplitOn(rest, sep), sep);
  }

  /** No piece of a split contains the separator. */
  lemma {:induction false} SplitPiecesFree(s: string, sep: string)
    requires sep != []
    ensures forall k :: 0 <= k < |SplitOn(s, sep)| ==> !Contains(SplitOn(s, sep)[k], sep)
    decreases |s|
  {
    match IndexOf(s, sep)
    case None =>
    case Some(i) =>
      var rest := s[i + |sep|..];
      SplitPiecesFree(rest, sep);
      FirstPieceFree(s, sep, i);
      assert SplitOn(s, sep) == [s[..i]] + SplitOn(rest, sep) by { SplitStep(s, sep, i); }
      PiecesFreeCons(s[..i], SplitOn(rest, sep), sep);
  }

  lemma PiecesFreeCons(a: string, ps: seq<string>, sep: string)
    requires sep != [] && !Contains(a, sep)
    requires forall k :: 0 <= k < |ps| ==> !Contains(ps[k], sep)
    ensures forall k :: 0 <= k < |[a] + ps| ==> !Contains(([a] + ps)[k], sep)
  {
    forall k | 0 <= k < |[a] + ps|
      ensures !Contains(([a] + ps)[k], sep)
    {
      if k > 0 {
        assert ([a] + ps)[k] == ps[k - 1];
      }
    }
  }

  lemma FirstPieceFree(s: string, sep: string, i: nat)
    requires sep != [] && IndexOf(s, sep) == Some(i)
    ensures !Contains(s[..i], sep)
  {
    IndexOfIsFirst(s, sep);
    if Contains(s[..i], sep) {
      var j := IndexOf(s[..i], sep).value;
      assert s[..i][j..j + |sep|] == s[j..j + |sep|];
      assert OccursAt(s, sep, j);
      assert false;
    }
  }

  /** t is a suffix of s. */
  predicate EndsWith(s: string, t: string)
  {
    |t| <= |s| && s[|s| - |t|..] == t
  }

  lemma EndsWithAppend(p: string, s: string, t: string)
    requires EndsWith(s, t)
    ensures EndsWith(p + s, t)
  {
    assert (p + s)[|p + s| - |t|..] == s[|s| - |t|..];
  }

  /** An occurrence of sep followed by the rest of s is a suffix of s. */
  lemma SepThenTail(s: string, sep: string, i: nat)
    requires OccursAt(s, sep, i)
    ensures EndsWith(s, sep + s[i + |sep|..])
  {
    assert s[i..] == s[i..i + |sep|] + s[i + |sep|..];
  }

  /** The last piece of a split is the tail of s after the last separator the
      scan finds: a suffix of s, free of sep, preceded by sep whenever sep
      occurs at all. */
  lemma LastPieceIsTail(s: string, sep: string)
    requires sep != []
    ensures EndsWith(s, Last(SplitOn(s, sep)))
    ensures !Contains(Last(SplitOn(s, sep)), sep)
    ensures Contains(s, sep) ==> EndsWith(s, sep + Last(SplitOn(s, sep)))
  {
    SplitPiecesFree(s, sep);
    LastPieceIsSuffix(s, sep);
  }

  lemma {:induction false} LastPieceIsSuffix(s: string, sep: string)
    requires sep != []
    ensures EndsWith(s, Last(SplitOn(s, sep)))
    ensures Contains(s, sep) ==> EndsWith(s, sep + Last(SplitOn(s, sep)))
    decreases |s|
  {
    match IndexOf(s, sep)
    case None =>
      assert s[|s| - |s|..] == s;
    case Some(i) =>
      assert i + |sep| <= |s| by { SplitStep(s, sep, i); }
      LastPieceIsSuffix(s[i + |sep|..], sep);
      LastPieceStep(s, sep, i);
  }

  /** One step of LastPieceIsSuffix: from the split after the first
      occurrence to the split of s. */
  lemma LastPieceStep(s: string, sep: string, i: nat)
    requires sep != [] && IndexOf(s, sep) == Some(i) && i + |sep| <= |s|
    requires var rest := s[i + |sep|..];
      && EndsWith(rest, Last(SplitOn(rest, sep)))
      && (Contains(rest, sep) ==> EndsWith(rest, sep + Last(SplitOn(rest, sep))))
    ensures EndsWith(s, sep + Last(SplitOn(s, sep)))
    ensures EndsWith(s, Last(SplitOn(s, sep)))
  {
    var rest := s[i + |sep|..];
    var r := Last(SplitOn(rest, sep));
    assert Last(SplitOn(s, sep)) == r by { LastSplitStep(s, sep, i); }
    var p := s[..i] + sep;
    assert s == p + rest by { SplitStep(s, sep, i); }
    if Contains(rest, sep) {
      EndsWithAppend(p, rest, sep + r);
    } else {
      assert r == rest;
      SepThenTail(s, sep, i);
    }
    assert EndsWith(s, r) by {
      assert (sep + r)[|sep|..] == r;
    }
  }

  /** The first piece of a split is the prefix of s before the first
      occurrence of sep, and the pieces after it are the split of what
      follows that occurrence. */
  lemma FirstPieceIsHead(s: string, sep: string)
    requires sep != []
    ensures var p := SplitOn(s, sep)[0];
      && |p| <= |s| && s[..|p|] == p
      && !Contains(p, sep)
      && (Contains(s, sep) ==>
            OccursAt(s, sep, |p|) && SplitOn(s, sep)[1..] == SplitOn(s[|p| + |sep|..], sep))
  {
    match IndexOf(s, sep)
    case None =>
      assert SplitOn(s, sep) == [s];
    case Some(i) =>
      var rest := SplitOn(s[i + |sep|..], sep);
      SplitStep(s, sep, i);
      FirstPieceFree(s, sep, i);
      assert SplitOn(s, sep)[0] == s[..i];
      assert ([s[..i]] + rest)[1..] == rest;
  }

  // ---------------------------------------------------------------------
  // key=value fields

  /** A field label: it ends in '=' and holds no other '='. */
  predicate Label(l: string)
  {
    |l| > 0 && l[|l| - 1] == '=' && forall i :: 0 <= i < |l| - 1 ==> l[i] != '='
  }

  /** A field value the labels cannot occur in: it holds no '='. */
  predicate NoEq(s: string)
  {
    forall i :: 0 <= i < |s| ==> s[i] != '='
  }

  /** A label never occurs in a value without '='. */
  lemma NoEqFree(s: string, l: string)
    requires NoEq(s) && Label(l)
    ensures !Contains(s, l)
  {
    forall j: nat | j + |l| <= |s|
      ensures !OccursAt(s, l, j)
    {
      assert s[j..j + |l|][|l| - 1] == s[j + |l| - 1];
    }
  }

  /** An occurrence of a label that starts inside a lies inside a when the
      same label follows a. */
  lemma NoStraddle(a: string, sep: string, b: string, j: nat)
    requires Label(sep) && j < |a|
    ensures OccursAt(a + sep + b, sep, j) ==> j + |sep| <= |a|
  {
    var s := a + sep + b;
    if j + |sep| > |a| {
      var k := j + |sep| - 1;
      assert s[k] == sep[k - |a|];
      assert j + |sep| <= |s| ==> s[j..j + |sep|][|sep| - 1] == s[k];
    }
  }

  lemma InPrefix(a: string, x: string, t: string, j: nat)
    requires j + |t| <= |a|
    ensures OccursAt(a + x, t, j) <==> OccursAt(a, t, j)
  {
    assert (a + x)[j..j + |t|] == a[j..j + |t|];
  }

  /** When a is free of sep, the first occurrence of sep in a + sep + b is
      the one after a. */
  lemma FirstOccurrence(a: string, sep: string, b: string)
    requires Label(sep) && !Contains(a, sep)
    ensures IndexOf(a + sep + b, sep) == Some(|a|)
    ensures SplitOn(a + sep + b, sep) == [a] + SplitOn(b, sep)
  {
    var s := a + sep + b;
    assert OccursAt(s, sep, |a|) by {
      assert s[|a|..|a| + |sep|] == sep;
    }
    IndexOfIsFirst(a, sep);
    forall j: nat | j < |a|
      ensures !OccursAt(s, sep, j)
    {
      NoStraddle(a, sep, b, j);
      assert s == a + (sep + b);
      if j + |sep| <= |a| {
        InPrefix(a, sep + b, sep, j);
      }
    }
    IndexOfIsFirst(s, sep);
    SplitStep(s, sep, |a|);
    assert s[..|a|] == a;
    assert s[|a| + |sep|..] == b;
  }

  // ---------------------------------------------------------------------
  // splitlines()

  /** A line without breaks followed by a line break and more text. */
  lemma LinesCons(a: string, b: string)
    requires forall i :: 0 <= i < |a| ==> a[i] !in LineBreaks
    ensures Lines(a + "\n" + b) == [a] + Lines(b)
  {
    var s := a + "\n" + b;
    SpanBreakFree(a, "\n" + b);
    assert s == a + ("\n" + b);
    assert s[..|a|] == a && s[|a| + 1..] == b;
  }

  /** A non-empty line without breaks is one line. */
  lemma LinesOne(a: string)
    requires a != [] && forall i :: 0 <= i < |a| ==> a[i] !in LineBreaks
    ensures Lines(a) == [a]
  {
    SpanBreakFree(a, []);
    assert a + [] == a;
  }

  lemma {:induction false} SpanBreakFree(a: string, b: string)
    requires forall i :: 0 <= i < |a| ==> a[i] !in LineBreaks
    requires b == [] || b[0] in LineBreaks
    ensures SpanOutside(a + b, LineBreaks) == |a|
    decreases |a|
  {
    if a != [] {
      assert (a + b)[1..] == a[1..] + b;
      SpanBreakFree(a[1..], b);
    }
  }

  /** Python's s.splitlines(), except that every line-break character ends a
      line ("\r\n" gives an extra empty line); the lines hold no break. */
  function Lines(s: string): (ls: seq<string>)
    ensures forall k, i :: 0 <= k < |ls| && 0 <= i < |ls[k]| ==> ls[k][i] !in LineBreaks
    decreases |s|
  {
    if s == [] then []
    else
      var n := SpanOutside(s, LineBreaks);
      if n == |s| then [s] else [s[..n]] + Lines(s[n + 1..])
  }
}
