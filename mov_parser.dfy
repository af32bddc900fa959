/** The robot movement parser of GRobotics (GRobotics/Robot_Mov_Parser.py):
    it finds the move instructions of a RAPID program, gives every distinct
    inline target a numbered `robtarget` declaration, and rewrites the move
    instructions to use those names. */
module MovParser {
  import opened PyStrings
  import opened PyNumbers

  // ---------------------------------------------------------------------
  // identify_move_instructions

  /** `\b(MoveJ|MoveL|MoveC)\b` under `re.IGNORECASE` matches at `i`. */
  predicate MoveWordAt(line: string, i: nat) {
    i + 5 <= |line|
    && (EqualIgnoringCase(line[i..i + 5], "MoveJ") || EqualIgnoringCase(line[i..i + 5], "MoveL")
        || EqualIgnoringCase(line[i..i + 5], "MoveC"))
    && (i == 0 || !IsWordChar(line[i - 1]))
    && (i + 5 == |line| || !IsWordChar(line[i + 5]))
  }

  /** `move_pattern.search(line)` finds a match. */
  predicate HasMove(line: string) {
    exists i :: 0 <= i < |line| && MoveWordAt(line, i)
  }

  function MoveLine(line: string): seq<string> {
    if HasMove(line) then [Strip(line)] else []
  }

  /** The stripped move lines, in program order. */
  function MoveLines(lines: seq<string>): seq<string> {
    Gather(MoveLine, lines)
  }

  /** The indices of the lines `keep` selects, in increasing order. */
  function Selected(keep: string -> bool, xs: seq<string>): seq<nat> {
    if xs == [] then []
    else
      var n := |xs| - 1;
      Selected(keep, xs[..n]) + (if keep(xs[n]) then [n] else [])
  }

  /** The selected indices are in range, increasing, and are exactly the
      elements `keep` accepts. */
  lemma {:induction false} SelectedIndices(keep: string -> bool, xs: seq<string>)
    ensures var idx := Selected(keep, xs);
      (forall k :: 0 <= k < |idx| ==> idx[k] < |xs| && keep(xs[idx[k]]))
      && (forall k, l :: 0 <= k < l < |idx| ==> idx[k] < idx[l])
      && (forall i :: 0 <= i < |xs| && keep(xs[i]) ==> i in idx)
  {
    if xs != [] {
      var n := |xs| - 1;
      SelectedIndices(keep, xs[..n]);
      forall i | 0 <= i < n ensures xs[..n][i] == xs[i] { }
    }
  }

  /** A filter-and-map written with `Gather` yields, in order, the images of
      the selected elements. */
  lemma {:induction false} GatherSelected(f: string -> seq<string>, keep: string -> bool,
                                          g: string -> string, xs: seq<string>)
    requires forall x :: f(x) == if keep(x) then [g(x)] else []
    ensures var idx := Selected(keep, xs);
      |Gather(f, xs)| == |idx|
      && forall k :: 0 <= k < |idx| ==> idx[k] < |xs| && Gather(f, xs)[k] == g(xs[idx[k]])
  {
    if xs != [] {
      var n := |xs| - 1;
      GatherSelected(f, keep, g, xs[..n]);
      GatherStep(f, xs, n);
      assert xs[..n + 1] == xs;
      var idx, prev := Selected(keep, xs[..n]), Gather(f, xs[..n]);
      assert Selected(keep, xs) == idx + (if keep(xs[n]) then [n] else []);
      forall k | 0 <= k < |idx| ensures xs[..n][idx[k]] == xs[idx[k]] { }
    }
  }

  /** `identify_move_instructions` keeps, in program order, the stripped
      lines that hold `MoveJ`, `MoveL` or `MoveC` as a whole word in any
      case, and no other line. */
  lemma MoveLinesInOrder(lines: seq<string>)
    ensures var idx := Selected(HasMove, lines);
      |MoveLines(lines)| == |idx|
      && (forall k :: 0 <= k < |idx| ==>
            idx[k] < |lines| && HasMove(lines[idx[k]]) && MoveLines(lines)[k] == Strip(lines[idx[k]]))
      && (forall k, l :: 0 <= k < l < |idx| ==> idx[k] < idx[l])
      && (forall i :: 0 <= i < |lines| && HasMove(lines[i]) ==> i in idx)
  {
    SelectedIndices(HasMove, lines);
    GatherSelected(MoveLine, HasMove, Strip, lines);
  }

  // ---------------------------------------------------------------------
  // extract_coordinates

  /** The run of digits that starts `s`, and what follows it. */
  function DigitRun(s: string): (r: (string, string))
    ensures s == r.0 + r.1 && AllDigits(r.0) && (r.1 != [] ==> !IsDigit(r.1[0]))
  {
    if s != [] && IsDigit(s[0]) then
      var (w, rest) := DigitRun(s[1..]);
      assert s == [s[0]] + s[1..];
      ([s[0]] + w, rest)
    else ([], s)
  }

  lemma {:induction false} DigitRunExact(x: string, y: string)
    requires AllDigits(x) && (y != [] ==> !IsDigit(y[0]))
    ensures DigitRun(x + y) == (x, y)
  {
    if x != [] {
      assert (x + y)[1..] == x[1..] + y;
      DigitRunExact(x[1..], y);
      assert [x[0]] + x[1..] == x;
      assert (x + y)[0] == x[0];
    } else {
      assert x + y == y;
    }
  }

  /** A numeral of the coordinate pattern, piece by piece: `[-+]?\d+\.?\d*`,
      or `[-+]?\d+` when there is no point. */
  datatype Num = Num(sign: string, whole: string, point: bool, frac: string)

  predicate NumShaped(n: Num, integer: bool) {
    |n.sign| <= 1 && (n.sign != [] ==> n.sign[0] == '-' || n.sign[0] == '+')
    && n.whole != [] && AllDigits(n.whole) && AllDigits(n.frac)
    && (!n.point ==> n.frac == []) && (integer ==> !n.point)
  }

  function NumText(n: Num): string {
    n.sign + (n.whole + (if n.point then ['.'] + n.frac else []))
  }

  /** The numeral that starts `s`, read greedily, and what follows it. */
  function MatchNum(s: string, integer: bool): (r: Option<(Num, string)>)
    ensures r.Some? ==> NumShaped(r.value.0, integer) && s == NumText(r.value.0) + r.value.1
  {
    var k := if s != [] && (s[0] == '-' || s[0] == '+') then 1 else 0;
    assert s == s[..k] + s[k..];
    var (whole, r1) := DigitRun(s[k..]);
    if whole == [] then None
    else if integer || r1 == [] || r1[0] != '.' then
      NumTextRight(Num(s[..k], whole, false, []), r1);
      Some((Num(s[..k], whole, false, []), r1))
    else
      var (frac, r2) := DigitRun(r1[1..]);
      assert r1 == ['.'] + r1[1..];
      NumTextRight(Num(s[..k], whole, true, frac), r2);
      Some((Num(s[..k], whole, true, frac), r2))
  }

  /** A numeral's text followed by more text, nested to the right. */
  lemma NumTextRight(n: Num, rest: string)
    ensures NumText(n) + rest
            == n.sign + (n.whole + (if n.point then ['.'] + (n.frac + rest) else rest))
  {
    if n.point {
      assert (['.'] + n.frac) + rest == ['.'] + (n.frac + rest);
    } else {
      assert [] + rest == rest;
    }
  }

  /** The greedy reading is the only one when the numeral is followed by a
      comma or a closing bracket. */
  lemma MatchNumExact(n: Num, integer: bool, rest: string)
    requires NumShaped(n, integer) && rest != [] && (rest[0] == ',' || rest[0] == ']')
    ensures MatchNum(NumText(n) + rest, integer) == Some((n, rest))
  {
    var s := NumText(n) + rest;
    NumTextRight(n, rest);
    var after := n.whole + (if n.point then ['.'] + (n.frac + rest) else rest);
    var k := |n.sign|;
    assert s[..k] == n.sign && s[k..] == after;
    assert k == 0 ==> s[0] == n.whole[0];
    if n.point {
      SignedPoint(n, rest, after);
    } else {
      SignedWhole(n, integer, rest, after);
    }
  }

  lemma SignedWhole(n: Num, integer: bool, rest: string, after: string)
    requires NumShaped(n, integer) && !n.point && rest != [] && (rest[0] == ',' || rest[0] == ']')
    requires after == n.whole + rest
    ensures DigitRun(after) == (n.whole, rest)
  {
    DigitRunExact(n.whole, rest);
  }

  lemma SignedPoint(n: Num, rest: string, after: string)
    requires NumShaped(n, false) && n.point && rest != [] && (rest[0] == ',' || rest[0] == ']')
    requires after == n.whole + (['.'] + (n.frac + rest))
    ensures var (w, r1) := DigitRun(after);
      w == n.whole && r1 != [] && r1[0] == '.' && DigitRun(r1[1..]) == (n.frac, rest)
  {
    var more := ['.'] + (n.frac + rest);
    assert more[0] == '.' && more[1..] == n.frac + rest;
    DigitRunExact(n.whole, more);
    DigitRunExact(n.frac, rest);
  }

  predicate AllShaped(ns: seq<Num>, integer: bool) {
    forall k :: 0 <= k < |ns| ==> NumShaped(ns[k], integer)
  }

  /** Numerals separated by commas, then `rest`. */
  function ListLine(ns: seq<Num>, rest: string): string
    requires |ns| > 0
  {
    if |ns| == 1 then NumText(ns[0]) + rest else NumText(ns[0]) + ("," + ListLine(ns[1..], rest))
  }

  lemma {:induction false} ListLineAppend(ns: seq<Num>, a: string, b: string)
    requires |ns| > 0
    ensures ListLine(ns, a + b) == ListLine(ns, a) + b
  {
    if |ns| > 1 {
      ListLineAppend(ns[1..], a, b);
    }
  }

  /** A real numeral of the pattern (`[-+]?\d+\.?\d*`) at the start of `s`. */
  function RealNum(s: string): (r: Option<(Num, string)>) {
    MatchNum(s, false)
  }

  /** An integer numeral of the pattern (`[-+]?\d+`) at the start of `s`. */
  function IntNum(s: string): (r: Option<(Num, string)>) {
    MatchNum(s, true)
  }

  /** `read` takes a numeral of the kind off the front of a text. */
  ghost predicate ReadsNum(read: string -> Option<(Num, string)>, integer: bool) {
    forall s :: read(s).Some? ==>
      NumShaped(read(s).value.0, integer) && s == NumText(read(s).value.0) + read(s).value.1
  }

  /** `read` takes exactly a whole numeral that a comma or a closing
      bracket ends. */
  ghost predicate ReadsWhole(read: string -> Option<(Num, string)>, integer: bool) {
    forall n, rest :: NumShaped(n, integer) && rest != [] && (rest[0] == ',' || rest[0] == ']') ==>
      read(NumText(n) + rest) == Some((n, rest))
  }

  lemma NumReaders()
    ensures ReadsNum(RealNum, false) && ReadsNum(IntNum, true)
    ensures ReadsWhole(RealNum, false) && ReadsWhole(IntNum, true)
  {
    forall n, rest | NumShaped(n, false) && rest != [] && (rest[0] == ',' || rest[0] == ']')
      ensures RealNum(NumText(n) + rest) == Some((n, rest))
    {
      MatchNumExact(n, false, rest);
    }
    forall n, rest | NumShaped(n, true) && rest != [] && (rest[0] == ',' || rest[0] == ']')
      ensures IntNum(NumText(n) + rest) == Some((n, rest))
    {
      MatchNumExact(n, true, rest);
    }
  }

  /** `count` numerals, read by `read`, separated by commas at the start of
      `s`. */
  function MatchList(read: string -> Option<(Num, string)>, integer: bool, s: string, count: nat)
    : (r: Option<(seq<Num>, string)>)
    requires count > 0
    decreases count
    ensures ReadsNum(read, integer) && r.Some? ==>
      |r.value.0| == count && AllShaped(r.value.0, integer) && s == ListLine(r.value.0, r.value.1)
  {
    match read(s)
    case None => None
    case Some((n, rest)) =>
      if count == 1 then Some(([n], rest))
      else
        match Literal(rest, ",")
        case None => None
        case Some(more) =>
          match MatchList(read, integer, more, count - 1)
          case None => None
          case Some((ns, tail)) =>
            assert ([n] + ns)[0] == n && ([n] + ns)[1..] == ns;
            Some(([n] + ns, tail))
  }

  lemma {:induction false} MatchListExact(read: string -> Option<(Num, string)>, integer: bool,
                                          ns: seq<Num>, rest: string)
    requires ReadsWhole(read, integer)
    requires |ns| > 0 && AllShaped(ns, integer) && rest != [] && rest[0] == ']'
    ensures MatchList(read, integer, ListLine(ns, rest), |ns|) == Some((ns, rest))
  {
    assert NumShaped(ns[0], integer);
    if |ns| == 1 {
      assert read(NumText(ns[0]) + rest) == Some((ns[0], rest));
      assert ns == [ns[0]];
    } else {
      assert AllShaped(ns[1..], integer);
      MatchListExact(read, integer, ns[1..], rest);
      var more := ListLine(ns[1..], rest);
      assert ("," + more)[0] == ',';
      MatchListMore(read, integer, ns, rest);
    }
  }

  lemma MatchListMore(read: string -> Option<(Num, string)>, integer: bool, ns: seq<Num>, rest: string)
    requires |ns| > 1
    requires var more := ListLine(ns[1..], rest);
      read(NumText(ns[0]) + ("," + more)) == Some((ns[0], "," + more))
      && MatchList(read, integer, more, |ns| - 1) == Some((ns[1..], rest))
    ensures MatchList(read, integer, ListLine(ns, rest), |ns|) == Some((ns, rest))
  {
    var more := ListLine(ns[1..], rest);
    assert ListLine(ns, rest) == NumText(ns[0]) + ("," + more);
    LiteralExact(",", more);
    assert [ns[0]] + ns[1..] == ns;
  }

  /** The external-axis block the pattern demands: six `9E+09`. */
  const ExtBlock := "9E+09,9E+09,9E+09,9E+09,9E+09,9E+09"

  /** The groups of an inline target: position, orientation, configuration. */
  datatype Coords = Coords(pos: seq<Num>, ori: seq<Num>, config: seq<Num>)

  predicate CoordsShaped(c: Coords) {
    |c.pos| == 3 && |c.ori| == 4 && |c.config| == 4
    && AllShaped(c.pos, false) && AllShaped(c.ori, false) && AllShaped(c.config, true)
  }

  /** The position, orientation and configuration groups written out,
      then `rest`. */
  function Groups(c: Coords, rest: string): string
    requires CoordsShaped(c)
  {
    "[" + ListLine(c.pos, "],[" + ListLine(c.ori, "],[" + ListLine(c.config, rest)))
  }

  /** The text `extract_coordinates` returns: the four groups, without the
      outer brackets. */
  function CoordsText(c: Coords): string
    requires CoordsShaped(c)
  {
    Groups(c, "],[" + (ExtBlock + "]"))
  }

  /** An inline target written with its outer brackets, then `rest`. */
  function CoordsLine(c: Coords, rest: string): string
    requires CoordsShaped(c)
  {
    "[" + Groups(c, "],[" + (ExtBlock + ("]" + ("]" + rest))))
  }

  lemma GroupsAppend(c: Coords, a: string, b: string)
    requires CoordsShaped(c)
    ensures Groups(c, a + b) == Groups(c, a) + b
  {
    ListLineAppend(c.config, a, b);
    var t2 := "],[" + ListLine(c.config, a);
    assert "],[" + ListLine(c.config, a + b) == t2 + b;
    ListLineAppend(c.ori, t2, b);
    var t1 := "],[" + ListLine(c.ori, t2);
    assert "],[" + ListLine(c.ori, t2 + b) == t1 + b;
    ListLineAppend(c.pos, t1, b);
    assert "[" + ListLine(c.pos, t1 + b) == ("[" + ListLine(c.pos, t1)) + b;
  }

  lemma CoordsLineText(c: Coords, rest: string)
    requires CoordsShaped(c)
    ensures CoordsLine(c, rest) == "[" + CoordsText(c) + ("]" + rest)
  {
    var t := "],[" + (ExtBlock + "]");
    assert "],[" + (ExtBlock + ("]" + ("]" + rest))) == t + ("]" + rest);
    GroupsAppend(c, t, "]" + rest);
  }

  /** The coordinate pattern matched at the start of `s`: the groups and
      what follows the closing bracket. */
  function MatchCoords(s: string): (r: Option<(Coords, string)>)
    ensures r.Some? ==> CoordsShaped(r.value.0) && s == CoordsLine(r.value.0, r.value.1)
  {
    NumReaders();
    match Literal(s, "[")
    case None => None
    case Some(s1) =>
      match Literal(s1, "[")
      case None => None
      case Some(s2) =>
        match MatchList(RealNum, false, s2, 3)
        case None => None
        case Some((pos, s3)) =>
          match Literal(s3, "],[")
          case None => None
          case Some(s4) =>
            match MatchList(RealNum, false, s4, 4)
            case None => None
            case Some((ori, s5)) =>
              match Literal(s5, "],[")
              case None => None
              case Some(s6) =>
                match MatchList(IntNum, true, s6, 4)
                case None => None
                case Some((config, s7)) =>
                  match Literal(s7, "],[")
                  case None => None
                  case Some(s8) =>
                    match Literal(s8, ExtBlock)
                    case None => None
                    case Some(s9) =>
                      match Literal(s9, "]")
                      case None => None
                      case Some(s10) =>
                        match Literal(s10, "]")
                        case None => None
                        case Some(s11) => Some((Coords(pos, ori, config), s11))
  }

  lemma MatchCoordsExact(c: Coords, rest: string)
    requires CoordsShaped(c)
    ensures MatchCoords(CoordsLine(c, rest)) == Some((c, rest))
  {
    var s9 := "]" + ("]" + rest);
    var s8 := ExtBlock + s9;
    var s7 := "],[" + s8;
    var s6 := ListLine(c.config, s7);
    var s5 := "],[" + s6;
    var s4 := ListLine(c.ori, s5);
    var s3 := "],[" + s4;
    var s2 := ListLine(c.pos, s3);
    var s1 := "[" + s2;
    NumReaders();
    LiteralExact("[", s1);
    LiteralExact("[", s2);
    MatchListExact(RealNum, false, c.pos, s3);
    LiteralExact("],[", s4);
    MatchListExact(RealNum, false, c.ori, s5);
    LiteralExact("],[", s6);
    MatchListExact(IntNum, true, c.config, s7);
    LiteralExact("],[", s8);
    LiteralExact(ExtBlock, s9);
    LiteralExact("]", "]" + rest);
    LiteralExact("]", rest);
  }

  /** Nothing matches where no `[` opens the text. */
  lemma MatchCoordsBracket(s: string)
    requires s == [] || s[0] != '['
    ensures MatchCoords(s) == None
  {
    assert !StartsWith(s, "[");
  }

  /** The leftmost position at or after `from` where `m` matches, and what
      it matched: `re.search`. */
  function FirstMatch<X>(m: string -> Option<X>, s: string, from: nat): (r: Option<(nat, X)>)
    requires from <= |s|
    decreases |s| - from
    ensures r.Some? ==> from <= r.value.0 <= |s| && m(s[r.value.0..]) == Some(r.value.1)
  {
    match m(s[from..])
    case Some(x) => Some((from, x))
    case None => if from == |s| then None else FirstMatch(m, s, from + 1)
  }

  /** The search skips only positions where `m` does not match. */
  lemma {:induction false} FirstMatchSkips<X>(m: string -> Option<X>, s: string, from: nat)
    requires from <= |s|
    decreases |s| - from
    ensures var r := FirstMatch(m, s, from);
      (r.Some? ==> forall j :: from <= j < r.value.0 ==> m(s[j..]).None?)
      && (r.None? ==> forall j :: from <= j <= |s| ==> m(s[j..]).None?)
  {
    if m(s[from..]).None? && from < |s| {
      FirstMatchSkips(m, s, from + 1);
    }
  }

  /** The search stops at the first position where `m` matches. */
  lemma FirstMatchAt<X>(m: string -> Option<X>, s: string, i: nat, x: X)
    requires i <= |s| && m(s[i..]) == Some(x)
    requires forall j :: 0 <= j < i ==> m(s[j..]).None?
    ensures FirstMatch(m, s, 0) == Some((i, x))
  {
    FirstMatchSkips(m, s, 0);
    var r := FirstMatch(m, s, 0);
    assert r.Some?;
    assert r.value.0 == i;
  }

  /** `extract_coordinates`: the groups of the leftmost inline target,
      without its outer brackets. */
  function ExtractCoordinates(instruction: string): (r: Option<string>)
    ensures r.Some? ==> |r.value| > 0
  {
    match FirstMatch(MatchCoords, instruction, 0)
    case None => None
    case Some((_, (c, _))) => Some(CoordsText(c))
  }

  lemma EndsWithAppend(a: string, t: string)
    ensures EndsWith(a + t, t)
  {
    assert (a + t)[|a|..] == t;
  }

  /** A returned text is an inline target of the instruction, taken inside
      its outer brackets, whose external axes are six `9E+09`. */
  lemma ExtractSound(instruction: string)
    requires ExtractCoordinates(instruction).Some?
    ensures var x := ExtractCoordinates(instruction).value;
      Contains(instruction, "[" + x + "]") && EndsWith(x, "],[" + (ExtBlock + "]"))
  {
    var (i, (c, rest)) := FirstMatch(MatchCoords, instruction, 0).value;
    TargetInside(instruction, i, c, rest);
  }

  /** The groups of a target found at `i`, bracketed, occur in the text. */
  lemma TargetInside(s: string, i: nat, c: Coords, rest: string)
    requires CoordsShaped(c) && i <= |s| && s[i..] == CoordsLine(c, rest)
    ensures Contains(s, "[" + CoordsText(c) + "]") && EndsWith(CoordsText(c), "],[" + (ExtBlock + "]"))
  {
    var x := CoordsText(c);
    CoordsLineText(c, rest);
    var pat := "[" + x + "]";
    assert "[" + x + ("]" + rest) == pat + rest;
    OccursBefore(s, i, pat, rest);
    ContainsIff(s, pat);
    ExtEnds(c);
  }

  lemma OccursBefore(s: string, i: nat, pat: string, rest: string)
    requires i <= |s| && s[i..] == pat + rest
    ensures OccursAt(s, pat, i)
  {
    assert s[i..i + |pat|] == (pat + rest)[..|pat|];
  }

  lemma ExtEnds(c: Coords)
    requires CoordsShaped(c)
    ensures EndsWith(CoordsText(c), "],[" + (ExtBlock + "]"))
  {
    var t := "],[" + (ExtBlock + "]");
    GroupsAppend(c, [], t);
    assert [] + t == t;
    EndsWithAppend(Groups(c, []), t);
  }

  /** An instruction whose text before its inline target holds no `[`
      yields that target's groups. */
  lemma ExtractFinds(before: string, c: Coords, rest: string)
    requires NoChar(before, '[') && CoordsShaped(c)
    ensures ExtractCoordinates(before + CoordsLine(c, rest)) == Some(CoordsText(c))
  {
    var s := before + CoordsLine(c, rest);
    forall j | 0 <= j < |before| ensures MatchCoords(s[j..]).None? {
      assert s[j..][0] == before[j];
      MatchCoordsBracket(s[j..]);
    }
    assert s[|before|..] == CoordsLine(c, rest);
    MatchCoordsExact(c, rest);
    FirstMatchAt(MatchCoords, s, |before|, (c, rest));
  }

  // ---------------------------------------------------------------------
  // generate_variable and parse_movements

  /** The base name of the variables: the field's text, or `p_` when empty. */
  function BaseName(field: string): string {
    if field == "" then "p_" else field
  }

  /** The name of the `k`-th distinct target: the counter starts at 10 and
      steps by 10. */
  function NameFor(base: string, k: nat): string {
    base + IntToString(10 + 10 * k)
  }

  /** The declaration `generate_variable` returns. */
  function Declaration(local: bool, constant: bool, name: string, coords: string): string {
    (if local then "LOCAL " else "") + (if constant then "CONST" else "VAR")
    + " Robtarget " + name + " := [" + coords + "];"
  }

  /** The coordinate texts the move lines yield, in order. */
  function FoundCoords(instruction: string): seq<string> {
    match ExtractCoordinates(instruction)
    case None => []
    case Some(c) => [c]
  }

  /** The distinct texts of `cs`, in order of first occurrence. */
  function Firsts(cs: seq<string>): seq<string> {
    if cs == [] then []
    else
      var prev := Firsts(cs[..|cs| - 1]);
      prev + (if cs[|cs| - 1] in prev then [] else [cs[|cs| - 1]])
  }

  /** Each text of `cs` is listed once, and nothing else is. */
  lemma {:induction false} FirstsMeaning(cs: seq<string>)
    ensures Distinct(Firsts(cs))
    ensures forall x :: x in Firsts(cs) <==> x in cs
  {
    if cs != [] {
      var n := |cs| - 1;
      FirstsMeaning(cs[..n]);
      assert cs == cs[..n] + [cs[n]];
    }
  }

  /** Listing grows only at the end: the texts met in a prefix of the
      program keep their places. */
  lemma {:induction false} FirstsPrefix(cs: seq<string>, i: nat)
    requires i <= |cs|
    ensures Firsts(cs[..i]) <= Firsts(cs)
  {
    if i < |cs| {
      var n := |cs| - 1;
      FirstsPrefix(cs[..n], i);
      assert cs[..n][..i] == cs[..i];
      assert cs[..|cs|] == cs;
    } else {
      assert cs[..i] == cs;
    }
  }

  /** `coordinate_to_variable` after naming the texts `xs` in order. */
  function Names(base: string, xs: seq<string>): map<string, string> {
    Indexed(NameOf(base), xs)
  }

  /** The name of the `k`-th distinct text. */
  function NameOf(base: string): nat -> string {
    (k: nat) => NameFor(base, k)
  }

  /** Each text of `xs` mapped to `f` of its position, a later one
      overriding an earlier equal one. */
  function Indexed(f: nat -> string, xs: seq<string>): map<string, string> {
    if xs == [] then map[] else Indexed(f, xs[..|xs| - 1])[xs[|xs| - 1] := f(|xs| - 1)]
  }

  /** `generated_variables` after naming the texts `xs` in order. */
  function Declarations(local: bool, constant: bool, base: string, xs: seq<string>): seq<string> {
    Numbered(DeclarationOf(local, constant, base), xs)
  }

  /** The declaration of the `k`-th distinct text. */
  function DeclarationOf(local: bool, constant: bool, base: string): (nat, string) -> string {
    (k: nat, x: string) => Declaration(local, constant, NameFor(base, k), x)
  }

  /** `f` applied to each text and its position, in order. */
  function Numbered(f: (nat, string) -> string, xs: seq<string>): seq<string> {
    if xs == [] then [] else Numbered(f, xs[..|xs| - 1]) + [f(|xs| - 1, xs[|xs| - 1])]
  }

  lemma {:induction false} IndexedKeys(f: nat -> string, xs: seq<string>)
    ensures forall x :: x in Indexed(f, xs) <==> x in xs
  {
    if xs != [] {
      var n := |xs| - 1;
      IndexedKeys(f, xs[..n]);
      assert xs == xs[..n] + [xs[n]];
    }
  }

  lemma {:induction false} IndexedAt(f: nat -> string, xs: seq<string>, k: nat)
    requires Distinct(xs) && k < |xs|
    ensures xs[k] in Indexed(f, xs) && Indexed(f, xs)[xs[k]] == f(k)
  {
    var n := |xs| - 1;
    if k < n {
      DistinctPrefix(xs, n);
      IndexedAt(f, xs[..n], k);
      assert xs[..n][k] == xs[k];
    }
  }

  /** Only the named texts are mapped. */
  lemma NamesKeys(base: string, xs: seq<string>)
    ensures forall x :: x in Names(base, xs) <==> x in xs
  {
    IndexedKeys(NameOf(base), xs);
  }

  /** The `k`-th distinct text is mapped to the `k`-th name. */
  lemma NameAt(base: string, xs: seq<string>, k: nat)
    requires Distinct(xs) && k < |xs|
    ensures xs[k] in Names(base, xs) && Names(base, xs)[xs[k]] == NameFor(base, k)
  {
    IndexedAt(NameOf(base), xs, k);
  }

  lemma {:induction false} NumberedLength(f: (nat, string) -> string, xs: seq<string>)
    ensures |Numbered(f, xs)| == |xs|
  {
    if xs != [] {
      NumberedLength(f, xs[..|xs| - 1]);
    }
  }

  lemma {:induction false} NumberedAt(f: (nat, string) -> string, xs: seq<string>, k: nat)
    requires k < |xs|
    ensures |Numbered(f, xs)| == |xs| && Numbered(f, xs)[k] == f(k, xs[k])
  {
    var n := |xs| - 1;
    NumberedLength(f, xs);
    NumberedLength(f, xs[..n]);
    if k < n {
      NumberedAt(f, xs[..n], k);
      assert xs[..n][k] == xs[k];
    }
  }

  /** The `k`-th declaration declares the `k`-th distinct text under the
      `k`-th name, and there is one per text. */
  lemma DeclarationAt(local: bool, constant: bool, base: string, xs: seq<string>, k: nat)
    requires k < |xs|
    ensures |Declarations(local, constant, base, xs)| == |xs|
    ensures Declarations(local, constant, base, xs)[k] == Declaration(local, constant, NameFor(base, k), xs[k])
  {
    NumberedAt(DeclarationOf(local, constant, base), xs, k);
  }

  lemma FirstsStep(cs: seq<string>, c: string)
    ensures Firsts(cs + [c]) == Firsts(cs) + (if c in Firsts(cs) then [] else [c])
  {
    assert (cs + [c])[..|cs|] == cs;
  }

  lemma NamingStep(local: bool, constant: bool, base: string, xs: seq<string>, c: string)
    ensures Names(base, xs + [c]) == Names(base, xs)[c := NameFor(base, |xs|)]
    ensures Declarations(local, constant, base, xs + [c])
            == Declarations(local, constant, base, xs) + [Declaration(local, constant, NameFor(base, |xs|), c)]
  {
    assert (xs + [c])[..|xs|] == xs;
  }

  /** A text met for the first time is named with the counter and declared
      after the others. */
  lemma NewTarget(local: bool, constant: bool, base: string, prev: seq<string>, c: string,
                  order: seq<string>, names: map<string, string>, declarations: seq<string>, counter: int)
    requires order == Firsts(prev) && c !in order && counter == 10 + 10 * |order|
    requires names == Names(base, order) && declarations == Declarations(local, constant, base, order)
    ensures order + [c] == Firsts(prev + [c]) && counter + 10 == 10 + 10 * |order + [c]|
    ensures names[c := base + IntToString(counter)] == Names(base, order + [c])
    ensures declarations + [Declaration(local, constant, base + IntToString(counter), c)]
            == Declarations(local, constant, base, order + [c])
  {
    FirstsStep(prev, c);
    NamingStep(local, constant, base, order, c);
    assert base + IntToString(counter) == NameFor(base, |order|);
  }

  /** A text met before changes nothing. */
  lemma KnownTarget(prev: seq<string>, c: string)
    requires c in Firsts(prev)
    ensures Firsts(prev + [c]) == Firsts(prev)
  {
    FirstsStep(prev, c);
  }

  /** The names are distinct, and their numbers strictly increase. */
  lemma NamesIncrease(base: string, j: nat, k: nat)
    requires j < k
    ensures NameFor(base, j) != NameFor(base, k)
    ensures ParseInt(NameFor(base, j)[|base|..]) == Some(10 + 10 * j)
    ensures ParseInt(NameFor(base, k)[|base|..]) == Some(10 + 10 * k)
  {
    NameNumber(base, j);
    NameNumber(base, k);
  }

  /** The `k`-th name is the base name followed by the number `10 + 10k`. */
  lemma NameNumber(base: string, k: nat)
    ensures |base| <= |NameFor(base, k)| && NameFor(base, k)[..|base|] == base
    ensures ParseInt(NameFor(base, k)[|base|..]) == Some(10 + 10 * k)
  {
    assert NameFor(base, k)[..|base|] == base;
    assert NameFor(base, k)[|base|..] == IntToString(10 + 10 * k);
    IntRoundTrip(10 + 10 * k);
  }

  /** The word `split()[-1]` picks: the last one, or nothing. */
  function LastWord(s: string): string {
    var ws := Words(s);
    if ws == [] then "" else ws[|ws| - 1]
  }

  /** Every generated name ends in digits, so it has a last word. */
  lemma NameHasWord(base: string, k: nat)
    ensures Words(NameFor(base, k)) != []
  {
    var s := NameFor(base, k);
    var digits := IntToString(10 + 10 * k);
    assert s[|s| - 1] == digits[|digits| - 1];
    LastNonSpace(s);
  }

  lemma {:induction false} LastNonSpace(s: string)
    requires |s| > 0 && !IsSpace(s[|s| - 1])
    ensures Words(s) != []
    decreases |s|
  {
    if IsSpace(s[0]) {
      LastNonSpace(s[1..]);
    }
  }

  // ---------------------------------------------------------------------
  // modify_file

  predicate ModuleLine(line: string) {
    StartsWith(Strip(line), "MODULE")
  }

  /** The first index at or after `from` where `p` holds. */
  function FirstWhere(p: string -> bool, xs: seq<string>, from: nat): (r: Option<nat>)
    requires from <= |xs|
    decreases |xs| - from
    ensures r.Some? ==> from <= r.value < |xs| && p(xs[r.value])
    ensures r.Some? ==> forall j :: from <= j < r.value ==> !p(xs[j])
    ensures r.None? ==> forall j :: from <= j < |xs| ==> !p(xs[j])
  {
    if from == |xs| then None
    else if p(xs[from]) then Some(from)
    else FirstWhere(p, xs, from + 1)
  }

  /** The first line whose stripped text starts with `MODULE`. */
  function FirstModule(lines: seq<string>): (r: Option<nat>)
    ensures r.Some? ==> r.value < |lines| && ModuleLine(lines[r.value])
    ensures r.Some? ==> forall j :: 0 <= j < r.value ==> !ModuleLine(lines[j])
    ensures r.None? ==> forall j :: 0 <= j < |lines| ==> !ModuleLine(lines[j])
  {
    FirstWhere(ModuleLine, lines, 0)
  }

  /** Where the declaration block goes: after the first `MODULE` line, or
      first. */
  function BlockIndex(lines: seq<string>): (p: nat)
    ensures p <= |lines|
  {
    match FirstModule(lines)
    case Some(i) => i + 1
    case None => 0
  }

  /** The block `modify_file` inserts. */
  function Block(lines: seq<string>, declarations: seq<string>): string {
    if FirstModule(lines).Some? then "\n" + Join(declarations, "\n") + "\n"
    else Join(declarations, "\n") + "\n"
  }

  /** The lines with the declaration block inserted: the block sits right
      after the first `MODULE` line (or first when there is none) and the
      other lines keep their order. */
  function Inserted(lines: seq<string>, declarations: seq<string>): (r: seq<string>)
    ensures var p := BlockIndex(lines);
      |r| == |lines| + 1 && r[p] == Block(lines, declarations) && r[..p] + r[p + 1..] == lines
  {
    InsertAt(lines, BlockIndex(lines), Block(lines, declarations))
  }

  /** `x` inserted before position `p`. */
  function InsertAt(xs: seq<string>, p: nat, x: string): (r: seq<string>)
    requires p <= |xs|
    ensures |r| == |xs| + 1 && r[p] == x && r[..p] + r[p + 1..] == xs
  {
    var r := xs[..p] + [x] + xs[p..];
    assert r[..p] == xs[..p] && r[p + 1..] == xs[p..];
    assert xs[..p] + xs[p..] == xs;
    r
  }

  /** `any(move in line.upper() for move in ["MOVEJ", "MOVEL", "MOVEC"])`. */
  predicate MentionsMove(line: string) {
    var u := Upper(line);
    Contains(u, "MOVEJ") || Contains(u, "MOVEL") || Contains(u, "MOVEC")
  }

  /** The last of `keys` that occurs in `line`. */
  function LastContained(line: string, keys: seq<string>): (r: Option<nat>)
    ensures r.Some? ==> r.value < |keys| && Contains(line, keys[r.value])
    ensures r.Some? ==> forall j :: r.value < j < |keys| ==> !Contains(line, keys[j])
    ensures r.None? ==> forall j :: 0 <= j < |keys| ==> !Contains(line, keys[j])
  {
    if keys == [] then None
    else if Contains(line, keys[|keys| - 1]) then Some(|keys| - 1)
    else LastContained(line, keys[..|keys| - 1])
  }

  /** The inline target `[coords]` replaced by the last word of its name. */
  function Replaced(line: string, coords: string, names: map<string, string>): string {
    if coords in names then ReplaceAll(line, "[" + coords + "]", LastWord(names[coords])) else line
  }

  /** The line `modify_file` writes for `line`: on a move line, the inline
      target of the last mapped text it contains, in map order, replaced by
      that text's name; every other line unchanged. */
  function EditedLine(line: string, order: seq<string>, names: map<string, string>): string {
    if !MentionsMove(line) then line else Pick(line, order, names)
  }

  /** The line with the inline target of the last of `keys` it contains
      renamed, or the line itself. */
  function Pick(line: string, keys: seq<string>, names: map<string, string>): string {
    match LastContained(line, keys)
    case None => line
    case Some(k) => Replaced(line, keys[k], names)
  }

  /** One more key: it wins when the line contains it. */
  lemma PickStep(line: string, keys: seq<string>, c: string, names: map<string, string>)
    ensures Pick(line, keys + [c], names)
            == if Contains(line, c) then Replaced(line, c, names) else Pick(line, keys, names)
  {
    assert (keys + [c])[..|keys|] == keys;
  }

  /** What the rewrite does: a move line whose first inline target `[c]`
      comes right after `before`, that holds no second one, and that contains
      no other mapped text, becomes `before`, the name of `c`, `after`. */
  lemma EditRewrites(before: string, c: string, after: string, order: seq<string>, names: map<string, string>)
    requires var line := before + ("[" + c + "]") + after;
      MentionsMove(line) && c in order && c in names
      && Find(line, "[" + c + "]") == Some(|before|) && !Contains(after, "[" + c + "]")
      && forall k :: 0 <= k < |order| && order[k] != c ==> !Contains(line, order[k])
    ensures EditedLine(before + ("[" + c + "]") + after, order, names) == before + LastWord(names[c]) + after
  {
    var pat := "[" + c + "]";
    var line := before + pat + after;
    assert OccursAt(line, c, |before| + 1) by {
      assert line[|before| + 1..|before| + 1 + |c|] == pat[1..1 + |c|];
    }
    ContainsIff(line, c);
    var k := LastContained(line, order).value;
    assert order[k] == c;
    ReplaceOnce(before, pat, LastWord(names[c]), after);
  }

  /** The movement parser window: the format settings of its widgets, and
      the state `parse_movements` builds. */
  class MovementParser {
    /** The LOCAL radio button (GLOBAL when unchecked). */
    var scopeLocal: bool
    /** The CONST radio button (VAR when unchecked). */
    var typeConst: bool
    /** The base-name field. */
    var varBaseName: string
    var variableCounter: int
    var generatedVariables: seq<string>
    var coordinateToVariable: map<string, string>
    /** The insertion order of `coordinate_to_variable`. */
    var coordinateOrder: seq<string>

    /** The order lists each mapped text once. */
    ghost predicate Valid()
      reads this`coordinateOrder, this`coordinateToVariable
    {
      Distinct(coordinateOrder) && forall x :: x in coordinateToVariable <==> x in coordinateOrder
    }

    /** The window as it opens: GLOBAL, CONST, base name `p_`, counter 10. */
    constructor ()
      ensures Valid()
      ensures !scopeLocal && typeConst && varBaseName == "p_"
      ensures variableCounter == 10 && generatedVariables == []
      ensures coordinateToVariable == map[] && coordinateOrder == []
    {
      scopeLocal := false;
      typeConst := true;
      varBaseName := "p_";
      variableCounter := 10;
      generatedVariables := [];
      coordinateToVariable := map[];
      coordinateOrder := [];
    }

    /** `identify_move_instructions`. */
    method IdentifyMoveInstructions(lines: seq<string>) returns (moves: seq<string>)
      ensures moves == MoveLines(lines)
    {
      moves := [];
      for i := 0 to |lines|
        invariant moves == Gather(MoveLine, lines[..i])
      {
        GatherStep(MoveLine, lines, i);
        if HasMove(lines[i]) {
          moves := moves + [Strip(lines[i])];
        }
      }
      assert lines[..|lines|] == lines;
    }

    /** `generate_variable`: a text already mapped gives nothing and
        changes nothing; a new one is named with the counter, which then
        steps by 10, and is mapped to that name. */
    method GenerateVariable(coords: string) returns (declaration: Option<string>)
      requires Valid()
      modifies this
      ensures Valid()
      ensures scopeLocal == old(scopeLocal) && typeConst == old(typeConst) && varBaseName == old(varBaseName)
      ensures generatedVariables == old(generatedVariables)
      ensures coords in old(coordinateToVariable) ==>
        declaration == None && variableCounter == old(variableCounter)
        && coordinateToVariable == old(coordinateToVariable) && coordinateOrder == old(coordinateOrder)
      ensures coords !in old(coordinateToVariable) ==>
        (var name := BaseName(varBaseName) + IntToString(old(variableCounter));
         declaration == Some(Declaration(scopeLocal, typeConst, name, coords))
         && variableCounter == old(variableCounter) + 10
         && coordinateToVariable == old(coordinateToVariable)[coords := name]
         && coordinateOrder == old(coordinateOrder) + [coords])
    {
      if coords in coordinateToVariable {
        return None;
      }
      var name := BaseName(varBaseName) + IntToString(variableCounter);
      variableCounter := variableCounter + 10;
      coordinateToVariable := coordinateToVariable[coords := name];
      coordinateOrder := coordinateOrder + [coords];
      return Some(Declaration(scopeLocal, typeConst, name, coords));
    }

    /** `parse_movements` on the lines of the program: every distinct inline
        target of the move lines, in order of first occurrence, is named and
        declared once. */
    method ParseMovements(lines: seq<string>)
      requires Valid()
      modifies this
      ensures Valid()
      ensures scopeLocal == old(scopeLocal) && typeConst == old(typeConst) && varBaseName == old(varBaseName)
      ensures var found := Firsts(Gather(FoundCoords, MoveLines(lines)));
        coordinateOrder == found
        && variableCounter == 10 + 10 * |found|
        && coordinateToVariable == Names(BaseName(varBaseName), found)
        && generatedVariables == Declarations(scopeLocal, typeConst, BaseName(varBaseName), found)
    {
      var moves := IdentifyMoveInstructions(lines);
      ParseInstructions(moves);
    }

    /** The reset and the loop of `parse_movements` over the move
        instructions. */
    method ParseInstructions(moves: seq<string>)
      requires Valid()
      modifies this
      ensures Valid()
      ensures scopeLocal == old(scopeLocal) && typeConst == old(typeConst) && varBaseName == old(varBaseName)
      ensures var found := Firsts(Gather(FoundCoords, moves));
        coordinateOrder == found
        && variableCounter == 10 + 10 * |found|
        && coordinateToVariable == Names(BaseName(varBaseName), found)
        && generatedVariables == Declarations(scopeLocal, typeConst, BaseName(varBaseName), found)
    {
      generatedVariables := [];
      variableCounter := 10;
      coordinateToVariable := map[];
      coordinateOrder := [];
      ghost var base := BaseName(varBaseName);
      for i := 0 to |moves|
        invariant Valid()
        invariant scopeLocal == old(scopeLocal) && typeConst == old(typeConst) && varBaseName == old(varBaseName)
        invariant coordinateOrder == Firsts(Gather(FoundCoords, moves[..i]))
        invariant variableCounter == 10 + 10 * |coordinateOrder|
        invariant coordinateToVariable == Names(base, coordinateOrder)
        invariant generatedVariables == Declarations(scopeLocal, typeConst, base, coordinateOrder)
      {
        GatherStep(FoundCoords, moves, i);
        ghost var prev := Gather(FoundCoords, moves[..i]);
        ghost var order, names, declarations, counter :=
          coordinateOrder, coordinateToVariable, generatedVariables, variableCounter;
        ParseInstruction(moves[i]);
        ghost var found := FoundCoords(moves[i]);
        if found == [] {
          assert prev + [] == prev;
        } else if found[0] in order {
          KnownTarget(prev, found[0]);
        } else {
          NewTarget(scopeLocal, typeConst, base, prev, found[0], order, names, declarations, counter);
        }
      }
      assert moves[..|moves|] == moves;
    }

    /** One pass of the loop of `parse_movements`: the instruction's inline
        target, when it has one not met before, is named and declared; in
        every other case nothing changes. */
    method ParseInstruction(instruction: string)
      requires Valid()
      modifies this
      ensures Valid()
      ensures scopeLocal == old(scopeLocal) && typeConst == old(typeConst) && varBaseName == old(varBaseName)
      ensures var found := FoundCoords(instruction);
        if found == [] || found[0] in old(coordinateToVariable) then
          variableCounter == old(variableCounter) && generatedVariables == old(generatedVariables)
          && coordinateToVariable == old(coordinateToVariable) && coordinateOrder == old(coordinateOrder)
        else
          var name := BaseName(varBaseName) + IntToString(old(variableCounter));
          variableCounter == old(variableCounter) + 10
          && generatedVariables == old(generatedVariables) + [Declaration(scopeLocal, typeConst, name, found[0])]
          && coordinateToVariable == old(coordinateToVariable)[found[0] := name]
          && coordinateOrder == old(coordinateOrder) + [found[0]]
    {
      var coords := ExtractCoordinates(instruction);
      if coords.Some? {
        var variable := GenerateVariable(coords.value);
        if variable.Some? {
          generatedVariables := generatedVariables + [variable.value];
        }
      }
    }

    /** The line editing of `modify_file`: nothing when no variable was
        generated; otherwise the declaration block is inserted and each line
        of the result is edited on its own. */
    method ModifyLines(lines: seq<string>) returns (r: Option<seq<string>>)
      requires Valid()
      ensures generatedVariables == [] ==> r == None
      ensures generatedVariables != [] ==>
        (var inserted := Inserted(lines, generatedVariables);
         r.Some? && |r.value| == |inserted|
         && forall i :: 0 <= i < |inserted| ==>
              r.value[i] == EditedLine(inserted[i], coordinateOrder, coordinateToVariable))
    {
      if generatedVariables == [] {
        return None;
      }
      var p := match FirstModule(lines) case Some(i) => i + 1 case None => 0;
      var block := if FirstModule(lines).Some? then "\n" + Join(generatedVariables, "\n") + "\n"
                   else Join(generatedVariables, "\n") + "\n";
      var edited := lines[..p] + [block] + lines[p..];
      ghost var inserted := edited;
      assert inserted == Inserted(lines, generatedVariables);
      for i := 0 to |edited|
        invariant |edited| == |inserted|
        invariant forall j :: 0 <= j < i ==> edited[j] == EditedLine(inserted[j], coordinateOrder, coordinateToVariable)
        invariant forall j :: i <= j < |edited| ==> edited[j] == inserted[j]
      {
        var line := EditLine(edited[i]);
        edited := edited[i := line];
      }
      return Some(edited);
    }

    /** One line of the replacement loop of `modify_file`: each mapped text
        the line contains replaces the line by the original line with that
        text's inline target renamed, so the last one wins. */
    method EditLine(line: string) returns (edited: string)
      requires Valid()
      ensures edited == EditedLine(line, coordinateOrder, coordinateToVariable)
    {
      edited := line;
      if MentionsMove(line) {
        for k := 0 to |coordinateOrder|
          invariant edited == Pick(line, coordinateOrder[..k], coordinateToVariable)
        {
          var coords := coordinateOrder[k];
          assert coordinateOrder[..k + 1] == coordinateOrder[..k] + [coords];
          PickStep(line, coordinateOrder[..k], coords, coordinateToVariable);
          if Contains(line, coords) {
            assert coords in coordinateToVariable;
            edited := ReplaceAll(line, "[" + coords + "]", LastWord(coordinateToVariable[coords]));
          }
        }
        assert coordinateOrder[..|coordinateOrder|] == coordinateOrder;
      }
    }
  }
}
