/** Python `str` operations used by the converters and the movement parser:
    character classes of the `re` module, `strip`, `split`, `join`,
    `in`, `startswith`, `replace`, `upper` and the whitespace `split()`. */
module PyStrings {

  /** Characters Python's `str.isspace` (and the `\s` class of `re`) accept. */
  predicate IsSpace(c: char) {
    c == ' ' || ('\t' <= c <= '\r') || ('\U{1C}' <= c <= '\U{1F}') || c == '\U{85}'
    || c == '\U{A0}' || c == '\U{1680}' || ('\U{2000}' <= c <= '\U{200A}')
    || c == '\U{2028}' || c == '\U{2029}' || c == '\U{202F}' || c == '\U{205F}'
    || c == '\U{3000}'
  }

  predicate IsDigit(c: char) { '0' <= c <= '9' }

  predicate IsLetter(c: char) { 'a' <= c <= 'z' || 'A' <= c <= 'Z' }

  /** The `\w` class, on ASCII. */
  predicate IsWordChar(c: char) { IsLetter(c) || IsDigit(c) || c == '_' }

  predicate AllWordChars(s: string) { forall i :: 0 <= i < |s| ==> IsWordChar(s[i]) }

  predicate AllDigits(s: string) { forall i :: 0 <= i < |s| ==> IsDigit(s[i]) }

  predicate NoChar(s: string, c: char) { forall i :: 0 <= i < |s| ==> s[i] != c }

  function UpperChar(c: char): char {
    if 'a' <= c <= 'z' then (c as int - 'a' as int + 'A' as int) as char else c
  }

  function LowerChar(c: char): char {
    if 'A' <= c <= 'Z' then (c as int - 'A' as int + 'a' as int) as char else c
  }

  /** `str.upper`, on ASCII letters. */
  function Upper(s: string): (r: string)
    ensures |r| == |s|
    ensures forall i :: 0 <= i < |s| ==> r[i] == UpperChar(s[i])
  {
    if s == [] then [] else [UpperChar(s[0])] + Upper(s[1..])
  }

  /** Case-insensitive equality, as `re.IGNORECASE` compares literal text. */
  predicate EqualIgnoringCase(s: string, t: string) {
    |s| == |t| && forall i :: 0 <= i < |s| ==> LowerChar(s[i]) == LowerChar(t[i])
  }

  predicate StartsWith(s: string, p: string) { |p| <= |s| && s[..|p|] == p }

  predicate EndsWith(s: string, p: string) { |p| <= |s| && s[|s| - |p|..] == p }

  predicate OccursAt(s: string, pat: string, i: nat) {
    i + |pat| <= |s| && s[i..i + |pat|] == pat
  }

  /** Index of the leftmost occurrence of `pat` in `s` at or after `from`. */
  function FindFrom(s: string, pat: string, from: nat): (r: Option<nat>)
    decreases |s| - from
    ensures r.Some? ==> from <= r.value && OccursAt(s, pat, r.value)
    ensures r.Some? ==> forall j :: from <= j < r.value ==> !OccursAt(s, pat, j)
    ensures r.None? ==> forall j :: from <= j ==> !OccursAt(s, pat, j)
  {
    if from + |pat| > |s| then None
    else if s[from..from + |pat|] == pat then Some(from)
    else FindFrom(s, pat, from + 1)
  }

  function Find(s: string, pat: string): Option<nat> { FindFrom(s, pat, 0) }

  /** `pat in s`. */
  predicate Contains(s: string, pat: string) { Find(s, pat).Some? }

  lemma {:induction false} ContainsIff(s: string, pat: string)
    ensures Contains(s, pat) <==> exists i: nat :: OccursAt(s, pat, i)
  {
    if Contains(s, pat) {
      assert OccursAt(s, pat, Find(s, pat).value);
    }
  }

  /** `s.split(sep)`: the pieces between leftmost, non-overlapping occurrences of `sep`. */
  function Split(s: string, sep: string): (r: seq<string>)
    requires |sep| > 0
    decreases |s|
    ensures |r| >= 1
  {
    match Find(s, sep)
    case None => [s]
    case Some(i) => [s[..i]] + Split(s[i + |sep|..], sep)
  }

  /** `sep.join(xs)`. */
  function Join(xs: seq<string>, sep: string): string {
    if |xs| == 0 then ""
    else if |xs| == 1 then xs[0]
    else xs[0] + sep + Join(xs[1..], sep)
  }

  /** Joining the pieces of a split gives the original string back. */
  lemma {:induction false} JoinSplit(s: string, sep: string)
    requires |sep| > 0
    ensures Join(Split(s, sep), sep) == s
    decreases |s|
  {
    match Find(s, sep)
    case None =>
    case Some(i) =>
      var rest := s[i + |sep|..];
      var parts := Split(rest, sep);
      JoinSplit(rest, sep);
      var all := [s[..i]] + parts;
      assert Split(s, sep) == all;
      assert all[1..] == parts;
      assert Join(all, sep) == s[..i] + sep + Join(parts, sep);
      assert s[i..i + |sep|] == sep;
      assert s == s[..i] + s[i..i + |sep|] + rest;
  }

  /** A string free of the separator's first character holds no separator. */
  lemma FindAbsent(e: string, sep: string)
    requires |sep| > 0 && NoChar(e, sep[0])
    ensures Find(e, sep).None?
  {
    forall j: nat | j + |sep| <= |e| ensures !OccursAt(e, sep, j) {
      assert e[j..j + |sep|][0] == e[j];
    }
  }

  /** The first separator in `e + sep + rest` is the one right after `e`. */
  lemma FindAfter(e: string, sep: string, rest: string)
    requires |sep| > 0 && NoChar(e, sep[0])
    ensures Find(e + sep + rest, sep) == Some(|e|)
  {
    var s := e + sep + rest;
    assert OccursAt(s, sep, |e|) by { assert s[|e|..|e| + |sep|] == sep; }
    forall j: nat | j < |e| ensures !OccursAt(s, sep, j) {
      assert s[j..j + |sep|][0] == s[j] == e[j];
    }
  }

  /** Splitting a join gives the pieces back when no piece holds the
      separator's first character. */
  lemma {:induction false} SplitJoin(xs: seq<string>, sep: string)
    requires |sep| > 0 && |xs| >= 1
    requires forall k :: 0 <= k < |xs| ==> NoChar(xs[k], sep[0])
    ensures Split(Join(xs, sep), sep) == xs
  {
    if |xs| == 1 {
      FindAbsent(xs[0], sep);
    } else {
      var rest := Join(xs[1..], sep);
      var s := xs[0] + sep + rest;
      assert Join(xs, sep) == s;
      FindAfter(xs[0], sep, rest);
      assert s[..|xs[0]|] == xs[0];
      assert s[|xs[0]| + |sep|..] == rest;
      assert Split(s, sep) == [xs[0]] + Split(rest, sep);
      SplitJoin(xs[1..], sep);
      assert xs == [xs[0]] + xs[1..];
    }
  }

  /** A join holds a character only if a piece or the separator does. */
  lemma {:induction false} JoinNoChar(xs: seq<string>, sep: string, c: char)
    requires NoChar(sep, c) && forall k :: 0 <= k < |xs| ==> NoChar(xs[k], c)
    ensures NoChar(Join(xs, sep), c)
  {
    if |xs| > 1 {
      JoinNoChar(xs[1..], sep, c);
      var r := xs[0] + sep + Join(xs[1..], sep);
      forall i | 0 <= i < |r| ensures r[i] != c {
        if i < |xs[0]| { assert r[i] == xs[0][i]; }
        else if i < |xs[0]| + |sep| { assert r[i] == sep[i - |xs[0]|]; }
        else { assert r[i] == Join(xs[1..], sep)[i - |xs[0]| - |sep|]; }
      }
    }
  }

  predicate AllSpaces(s: string) { forall i :: 0 <= i < |s| ==> IsSpace(s[i]) }

  /** `s.replace(pat, rep)`: every leftmost, non-overlapping occurrence replaced. */
  function ReplaceAll(s: string, pat: string, rep: string): string
    requires |pat| > 0
    decreases |s|
  {
    if |s| < |pat| then s
    else if s[..|pat|] == pat then rep + ReplaceAll(s[|pat|..], pat, rep)
    else [s[0]] + ReplaceAll(s[1..], pat, rep)
  }

  /** `replace` changes nothing when the pattern does not occur. */
  lemma {:induction false} ReplaceAbsent(s: string, pat: string, rep: string)
    requires |pat| > 0 && !Contains(s, pat)
    ensures ReplaceAll(s, pat, rep) == s
    decreases |s|
  {
    if |s| >= |pat| {
      assert !OccursAt(s, pat, 0);
      assert !Contains(s[1..], pat) by {
        if Contains(s[1..], pat) {
          var k := Find(s[1..], pat).value;
          assert s[1..][k..k + |pat|] == s[k + 1..k + 1 + |pat|];
          assert OccursAt(s, pat, k + 1);
        }
      }
      ReplaceAbsent(s[1..], pat, rep);
    }
  }

  /** `replace` of a pattern that occurs once, after `before`, rewrites just
      that occurrence. */
  lemma {:induction false} ReplaceOnce(before: string, pat: string, rep: string, after: string)
    requires |pat| > 0
    requires forall i :: 0 <= i < |before| ==> !OccursAt(before + pat + after, pat, i)
    requires !Contains(after, pat)
    ensures ReplaceAll(before + pat + after, pat, rep) == before + rep + after
    decreases |before|
  {
    var s := before + pat + after;
    if before == [] {
      assert s == pat + after;
      assert s[..|pat|] == pat && s[|pat|..] == after;
      ReplaceAbsent(after, pat, rep);
    } else {
      assert !OccursAt(s, pat, 0);
      assert s[1..] == before[1..] + pat + after;
      forall i | 0 <= i < |before[1..]| ensures !OccursAt(before[1..] + pat + after, pat, i) {
        assert !OccursAt(s, pat, i + 1);
        if i + |pat| <= |s[1..]| {
          assert s[1..][i..i + |pat|] == s[i + 1..i + 1 + |pat|];
        }
      }
      ReplaceOnce(before[1..], pat, rep, after);
      assert before == [before[0]] + before[1..];
    }
  }

  function StripLeft(s: string): (r: string)
    ensures |r| <= |s| && r == s[|s| - |r|..]
    ensures r == [] || !IsSpace(r[0])
    ensures forall i :: 0 <= i < |s| - |r| ==> IsSpace(s[i])
  {
    if |s| > 0 && IsSpace(s[0]) then StripLeft(s[1..]) else s
  }

  function StripRight(s: string): (r: string)
    ensures |r| <= |s| && r == s[..|r|]
    ensures r == [] || !IsSpace(r[|r| - 1])
    ensures forall i :: |r| <= i < |s| ==> IsSpace(s[i])
  {
    if |s| > 0 && IsSpace(s[|s| - 1]) then StripRight(s[..|s| - 1]) else s
  }

  /** `str.strip()`: the string without its leading and trailing whitespace. */
  function Strip(s: string): (r: string)
    ensures |r| <= |s|
    ensures r == [] || (!IsSpace(r[0]) && !IsSpace(r[|r| - 1]))
  {
    StripRight(StripLeft(s))
  }

  /** `strip` keeps a slice of its input and drops only whitespace around it. */
  lemma StripSlice(s: string)
    ensures var a, r := |s| - |StripLeft(s)|, Strip(s);
      && a + |r| <= |s| && s[a..a + |r|] == r
      && (forall i :: 0 <= i < a ==> IsSpace(s[i]))
      && (forall i :: a + |r| <= i < |s| ==> IsSpace(s[i]))
  {
    var l := StripLeft(s);
    var a := |s| - |l|;
    var r := StripRight(l);
    SliceOfSuffix(s, l, a, |r|);
    TailSpaces(s, l, a, |r|);
  }

  lemma SliceOfSuffix(s: string, l: string, a: nat, n: nat)
    requires a <= |s| && l == s[a..] && n <= |l|
    ensures s[a..a + n] == l[..n]
  {
  }

  lemma TailSpaces(s: string, l: string, a: nat, n: nat)
    requires a <= |s| && l == s[a..] && n <= |l|
    requires forall i :: n <= i < |l| ==> IsSpace(l[i])
    ensures forall i :: a + n <= i < |s| ==> IsSpace(s[i])
  {
    forall i | a + n <= i < |s| ensures IsSpace(s[i]) {
      assert s[i] == l[i - a];
    }
  }

  /** `str.strip(chars)`: leading and trailing characters drawn from `chars` removed. */
  function StripChars(s: string, chars: set<char>): (r: string)
    ensures |r| <= |s|
    decreases |s|
  {
    if |s| > 0 && s[0] in chars then StripChars(s[1..], chars)
    else if |s| > 0 && s[|s| - 1] in chars then StripChars(s[..|s| - 1], chars)
    else s
  }

  predicate NoSpace(w: string) { forall i :: 0 <= i < |w| ==> !IsSpace(w[i]) }

  /** The words of `s.split()`: maximal runs of non-whitespace characters. */
  function Words(s: string): (r: seq<string>)
    decreases |s|
    ensures forall k :: 0 <= k < |r| ==> |r[k]| > 0 && NoSpace(r[k])
  {
    if s == [] then []
    else if IsSpace(s[0]) then Words(s[1..])
    else
      var n := NonSpacePrefix(s);
      [s[..n]] + Words(s[n..])
  }

  /** Length of the run of non-whitespace characters that starts `s`. */
  function NonSpacePrefix(s: string): (n: nat)
    ensures n <= |s| && NoSpace(s[..n])
    ensures n < |s| ==> IsSpace(s[n])
    ensures |s| > 0 && !IsSpace(s[0]) ==> n > 0
  {
    if |s| > 0 && !IsSpace(s[0]) then
      var m := NonSpacePrefix(s[1..]);
      assert s[..m + 1] == [s[0]] + s[1..][..m];
      1 + m
    else 0
  }

  /** A string without whitespace is its own single word. */
  lemma {:induction false} WordsOfWord(s: string)
    requires |s| > 0 && NoSpace(s)
    ensures Words(s) == [s]
  {
    NonSpaceAll(s);
    assert s[..|s|] == s;
    assert s[|s|..] == [];
  }

  lemma {:induction false} NonSpaceAll(s: string)
    requires NoSpace(s)
    ensures NonSpacePrefix(s) == |s|
  {
    if |s| > 0 {
      assert NoSpace(s[1..]);
      NonSpaceAll(s[1..]);
    }
  }

  datatype Option<T> = None | Some(value: T)

  /** The run of `\w` characters that starts `s`, and what follows it. */
  function WordRun(s: string): (r: (string, string))
    ensures s == r.0 + r.1 && AllWordChars(r.0) && (r.1 != [] ==> !IsWordChar(r.1[0]))
  {
    if s != [] && IsWordChar(s[0]) then
      var (w, rest) := WordRun(s[1..]);
      assert s == [s[0]] + s[1..];
      ([s[0]] + w, rest)
    else ([], s)
  }

  /** The run of `\s` characters that starts `s`, and what follows it. */
  function SpaceRun(s: string): (r: (string, string))
    ensures s == r.0 + r.1 && AllSpaces(r.0) && (r.1 != [] ==> !IsSpace(r.1[0]))
  {
    if s != [] && IsSpace(s[0]) then
      var (w, rest) := SpaceRun(s[1..]);
      assert s == [s[0]] + s[1..];
      ([s[0]] + w, rest)
    else ([], s)
  }

  /** A run is maximal: a known run followed by a character outside the
      class is the run found. */
  lemma {:induction false} WordRunExact(x: string, y: string)
    requires AllWordChars(x) && (y != [] ==> !IsWordChar(y[0]))
    ensures WordRun(x + y) == (x, y)
  {
    if x != [] {
      assert (x + y)[1..] == x[1..] + y;
      WordRunExact(x[1..], y);
      assert [x[0]] + x[1..] == x;
      assert (x + y)[0] == x[0];
    } else {
      assert x + y == y;
    }
  }

  lemma {:induction false} SpaceRunExact(x: string, y: string)
    requires AllSpaces(x) && (y != [] ==> !IsSpace(y[0]))
    ensures SpaceRun(x + y) == (x, y)
  {
    if x != [] {
      assert (x + y)[1..] == x[1..] + y;
      SpaceRunExact(x[1..], y);
      assert [x[0]] + x[1..] == x;
      assert (x + y)[0] == x[0];
    } else {
      assert x + y == y;
    }
  }

  lemma TakeDrop(x: string, n: nat)
    requires n <= |x|
    ensures x == x[..n] + x[n..]
  {
  }

  /** The items `f` yields for each of `xs`, in order. */
  function Gather(f: string -> seq<string>, xs: seq<string>): seq<string> {
    if xs == [] then [] else Gather(f, xs[..|xs| - 1]) + f(xs[|xs| - 1])
  }

  lemma GatherStep(f: string -> seq<string>, xs: seq<string>, i: nat)
    requires i < |xs|
    ensures Gather(f, xs[..i + 1]) == Gather(f, xs[..i]) + f(xs[i])
  {
    assert xs[..i + 1][..i] == xs[..i];
  }

  /** When `f` yields exactly one item per element, gathering lists those
      items one for one. */
  lemma {:induction false} GatherSingles(f: string -> seq<string>, xs: seq<string>, u: seq<string>)
    requires |xs| == |u| && forall i :: 0 <= i < |xs| ==> f(xs[i]) == [u[i]]
    ensures Gather(f, xs) == u
  {
    if xs != [] {
      var n := |xs| - 1;
      GatherSingles(f, xs[..n], u[..n]);
      assert u == u[..n] + [u[n]];
    }
  }

  lemma NoCharConcat(a: string, b: string, c: char)
    requires NoChar(a, c) && NoChar(b, c)
    ensures NoChar(a + b, c)
  {
    forall i | 0 <= i < |a + b| ensures (a + b)[i] != c {
      if i < |a| {
        assert (a + b)[i] == a[i];
      } else {
        assert (a + b)[i] == b[i - |a|];
      }
    }
  }

  predicate AllIn(s: string, cs: set<char>) { forall i :: 0 <= i < |s| ==> s[i] in cs }

  /** The run of characters from `cs` that starts `s`, and what follows it. */
  function Run(s: string, cs: set<char>): (r: (string, string))
    ensures s == r.0 + r.1 && AllIn(r.0, cs) && (r.1 != [] ==> r.1[0] !in cs)
  {
    if s != [] && s[0] in cs then
      var (w, rest) := Run(s[1..], cs);
      assert s == [s[0]] + s[1..];
      ([s[0]] + w, rest)
    else ([], s)
  }

  lemma {:induction false} RunExact(x: string, y: string, cs: set<char>)
    requires AllIn(x, cs) && (y != [] ==> y[0] !in cs)
    ensures Run(x + y, cs) == (x, y)
  {
    if x != [] {
      assert (x + y)[1..] == x[1..] + y;
      RunExact(x[1..], y, cs);
      assert [x[0]] + x[1..] == x;
      assert (x + y)[0] == x[0];
    } else {
      assert x + y == y;
    }
  }

  /** The text after the literal `lit` that starts `s`, if it does. */
  function Literal(s: string, lit: string): (r: Option<string>)
    ensures r.Some? <==> StartsWith(s, lit)
    ensures r.Some? ==> s == lit + r.value
  {
    if StartsWith(s, lit) then
      assert s == s[..|lit|] + s[|lit|..];
      Some(s[|lit|..])
    else None
  }

  lemma LiteralExact(lit: string, rest: string)
    ensures Literal(lit + rest, lit) == Some(rest)
  {
    assert (lit + rest)[..|lit|] == lit;
    assert (lit + rest)[|lit|..] == rest;
  }

  /** No element occurs twice. */
  predicate Distinct<T(==)>(xs: seq<T>) {
    forall i, j :: 0 <= i < j < |xs| ==> xs[i] != xs[j]
  }

  lemma DistinctPrefix<T>(xs: seq<T>, n: nat)
    requires n <= |xs| && Distinct(xs)
    ensures Distinct(xs[..n])
  {
  }

  lemma DistinctAppend<T>(xs: seq<T>, x: T)
    requires Distinct(xs) && x !in xs
    ensures Distinct(xs + [x])
  {
  }
}
