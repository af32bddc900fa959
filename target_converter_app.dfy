/** The window of the stand-alone target converter
    (Target_converter/Target_converter.py, class `TargetConverterApp`): a
    registry of work objects, the pasted RAPID text with its robtarget
    declarations, and the batch conversion that turns every line of that
    text into a converted declaration or an error line. */
module TargetConverterUi {
  import opened PyStrings
  import opened PyNumbers
  import opened Quaternions
  import opened Robtargets
  import TargetConverter

  /** The head of a declaration, `<scope> robtarget <name> :=`, with the
      whitespace runs between its parts. */
  datatype Head = Head(scope: string, gap1: string, gap2: string, name: string, gap3: string)

  /** The shape `\w+\s+robtarget\s+(\w+)\s*:=` asks for. */
  predicate WellShaped(h: Head) {
    |h.scope| > 0 && AllWordChars(h.scope) && |h.gap1| > 0 && AllSpaces(h.gap1)
    && |h.gap2| > 0 && AllSpaces(h.gap2) && |h.name| > 0 && AllWordChars(h.name)
    && AllSpaces(h.gap3)
  }

  /** A line that starts with head `h` and goes on with `rest`. */
  function HeadLine(h: Head, rest: string): string {
    h.scope + (h.gap1 + ("robtarget" + (h.gap2 + (h.name + (h.gap3 + (":=" + rest))))))
  }

  /** `re.match(r'\w+\s+robtarget\s+(\w+)\s*:=', s)`: the head the line
      starts with and the text after it, if any. Every run is maximal, since
      the character after each run cannot start the next part. */
  function MatchHead(s: string): (r: Option<(Head, string)>)
    ensures r.Some? ==> WellShaped(r.value.0) && s == HeadLine(r.value.0, r.value.1)
  {
    var (scope, t1) := WordRun(s);
    var (gap1, t2) := SpaceRun(t1);
    if scope == [] || gap1 == [] || !StartsWith(t2, "robtarget") then None
    else
      var t3 := t2[9..];
      var (gap2, t4) := SpaceRun(t3);
      var (name, t5) := WordRun(t4);
      var (gap3, t6) := SpaceRun(t5);
      if gap2 == [] || name == [] || !StartsWith(t6, ":=") then None
      else
        assert t2 == "robtarget" + t3 by { TakeDrop(t2, 9); }
        assert t6 == ":=" + t6[2..] by { TakeDrop(t6, 2); }
        Some((Head(scope, gap1, gap2, name, gap3), t6[2..]))
  }

  /** Every line that starts with a well-shaped head is matched, and with
      exactly that head. */
  lemma MatchHeadComplete(h: Head, rest: string)
    requires WellShaped(h)
    ensures MatchHead(HeadLine(h, rest)) == Some((h, rest))
  {
    var t6 := ":=" + rest;
    var t5 := h.gap3 + t6;
    var t4 := h.name + t5;
    var t3 := h.gap2 + t4;
    var t2 := "robtarget" + t3;
    var t1 := h.gap1 + t2;
    WordRunExact(h.scope, t1);
    SpaceRunExact(h.gap1, t2);
    assert t2[9..] == t3;
    SpaceRunExact(h.gap2, t4);
    WordRunExact(h.name, t5);
    SpaceRunExact(h.gap3, t6);
    assert t6[2..] == rest;
  }

  /** A declaration line: `(\w+)\s+robtarget\s+(\w+)\s*:=\s*(\[.*\])\s*;`. */
  datatype Declaration = Declaration(scope: string, name: string, body: string)

  /** `]` at `i`, then optional whitespace and `;`. */
  predicate ClosesAt(t: string, i: nat) {
    i < |t| && t[i] == ']' && var u := SpaceRun(t[i + 1..]).1; u != [] && u[0] == ';'
  }

  /** The greedy `.*` of the pattern: the last `]` before index `j` (and after
      the opening bracket at 0) that a `;` follows. */
  function LastClose(t: string, j: nat): (r: Option<nat>)
    requires j <= |t|
    ensures r.Some? ==> (1 <= r.value < j && ClosesAt(t, r.value)
      && forall i :: r.value < i < j ==> !ClosesAt(t, i))
    ensures r.None? ==> forall i :: 1 <= i < j ==> !ClosesAt(t, i)
  {
    if j <= 1 then None
    else if ClosesAt(t, j - 1) then Some(j - 1)
    else LastClose(t, j - 1)
  }

  /** `re.match` of the whole declaration pattern against a line. */
  function MatchDeclaration(line: string): (r: Option<Declaration>)
    ensures r.Some? ==> (|r.value.scope| > 0 && AllWordChars(r.value.scope)
      && |r.value.name| > 0 && AllWordChars(r.value.name))
    ensures r.Some? ==> (|r.value.body| >= 2 && r.value.body[0] == '['
      && r.value.body[|r.value.body| - 1] == ']')
  {
    match MatchHead(line)
    case None => None
    case Some((h, rest)) =>
      var t := SpaceRun(rest).1;
      if t == [] || t[0] != '[' then None
      else
        match LastClose(t, |t|)
        case None => None
        case Some(j) => Some(Declaration(h.scope, h.name, t[..j + 1]))
  }

  /** The parts of a line the declaration pattern reads: a well-shaped head,
      whitespace, a bracketed body, whitespace and `;`, then anything. The
      greedy `.*` makes the body end at the last `]` that whitespace and `;`
      follow, so no later `]` may be followed that way. */
  predicate DeclarationParts(line: string, h: Head, g4: string, body: string, g5: string, rest: string) {
    WellShaped(h) && AllSpaces(g4) && AllSpaces(g5)
    && |body| >= 2 && body[0] == '[' && body[|body| - 1] == ']'
    && (var t := body + (g5 + (";" + rest));
        forall i :: |body| <= i < |t| ==> !ClosesAt(t, i))
    && line == HeadLine(h, g4 + (body + (g5 + (";" + rest))))
  }

  /** `LastClose` finds the closing bracket at `m` when no later one up to
      `j` qualifies. */
  lemma {:induction false} LastCloseAt(t: string, m: nat, j: nat)
    requires 1 <= m < j <= |t| && ClosesAt(t, m)
    requires forall i :: m < i < j ==> !ClosesAt(t, i)
    ensures LastClose(t, j) == Some(m)
  {
    if j - 1 != m {
      LastCloseAt(t, m, j - 1);
    }
  }

  /** Every line made of those parts is matched, with its scope, name and
      body. */
  lemma MatchDeclarationComplete(line: string, h: Head, g4: string, body: string, g5: string, rest: string)
    requires DeclarationParts(line, h, g4, body, g5, rest)
    ensures MatchDeclaration(line) == Some(Declaration(h.scope, h.name, body))
  {
    var u := ";" + rest;
    var t := body + (g5 + u);
    MatchHeadComplete(h, g4 + t);
    SpaceRunExact(g4, t);
    SpaceRunExact(g5, u);
    assert t[|body|..] == g5 + u;
    assert ClosesAt(t, |body| - 1);
    LastCloseAt(t, |body| - 1, |t|);
    assert t[..|body|] == body;
  }

  /** And every match comes from such parts. */
  lemma MatchDeclarationSound(line: string)
    requires MatchDeclaration(line).Some?
    ensures var d := MatchDeclaration(line).value;
      exists h, g4, g5, rest :: DeclarationParts(line, h, g4, d.body, g5, rest)
        && h.scope == d.scope && h.name == d.name
  {
    var d := MatchDeclaration(line).value;
    var (h, after) := MatchHead(line).value;
    var (g4, t) := SpaceRun(after);
    var j := LastClose(t, |t|).value;
    var body := t[..j + 1];
    var (g5, u) := SpaceRun(t[j + 1..]);
    var rest := u[1..];
    assert u == ";" + rest;
    assert t == body + (g5 + (";" + rest));
    assert DeclarationParts(line, h, g4, body, g5, rest);
  }

  /** One number of the pattern `[-+]?[0-9]*\.?[0-9]+(?:[eE][-+]?[0-9]+)?`. */
  predicate IsNumber(x: string) {
    var u := if |x| > 0 && (x[0] == '-' || x[0] == '+') then x[1..] else x;
    var k := IndexOfAny(u, {'e', 'E'});
    IsMantissa(u[..k]) && (k == |u| || IsExponent(u[k + 1..]))
  }

  /** `[0-9]*\.?[0-9]+`: digits, or digits, a point and at least one digit. */
  predicate IsMantissa(m: string) {
    var j := IndexOfAny(m, {'.'});
    AllDigits(m[..j]) && if j == |m| then |m| > 0 else |m[j + 1..]| > 0 && AllDigits(m[j + 1..])
  }

  /** `[-+]?[0-9]+`. */
  predicate IsExponent(e: string) {
    var v := if |e| > 0 && (e[0] == '-' || e[0] == '+') then e[1..] else e;
    |v| > 0 && AllDigits(v)
  }

  /** The text between a pair of brackets that the group pattern accepts: numbers
      separated by single commas. */
  predicate IsNumberList(c: string) {
    var ps := Split(c, ",");
    forall i :: 0 <= i < |ps| ==> IsNumber(ps[i])
  }

  /** `re.findall(r'\[(<group>)\]', t)` for a group pattern `ok` that admits
      no `]`: scanning left to right, a `[` starts a group when the text up to
      the next `]` is admitted; the scan then resumes after that `]`. */
  function BracketedGroups(t: string, ok: string -> bool): (r: seq<string>)
    decreases |t|
    ensures forall k :: 0 <= k < |r| ==> ok(r[k])
  {
    if t == [] then []
    else
      var u := t[1..];
      if t[0] == '[' then
        match Find(u, "]")
        case Some(j) =>
          if ok(u[..j]) then [u[..j]] + BracketedGroups(u[j + 1..], ok)
          else BracketedGroups(u, ok)
        case None => BracketedGroups(u, ok)
      else BracketedGroups(u, ok)
  }

  /** `re.findall(r'\[(<number>(?:,<number>)*)\]', t)`: the groups that are
      number lists. */
  function NumberGroups(t: string): (r: seq<string>)
    ensures forall k :: 0 <= k < |r| ==> IsNumberList(r[k])
  {
    BracketedGroups(t, IsNumberList)
  }

  /** A number holds no bracket: it is signs, digits, a point and an
      exponent mark. */
  lemma NumberNoBracket(x: string)
    requires IsNumber(x)
    ensures NoChar(x, ']')
  {
    var o := if |x| > 0 && (x[0] == '-' || x[0] == '+') then 1 else 0;
    var u := x[o..];
    UnsignedNoBracket(u, IndexOfAny(u, {'e', 'E'}));
    NoCharConcat(x[..o], u, ']');
    TakeDrop(x, o);
  }

  /** The unsigned part: a mantissa, then possibly an exponent mark at `k`
      and an exponent. */
  lemma UnsignedNoBracket(u: string, k: nat)
    requires k <= |u| && (k < |u| ==> u[k] in {'e', 'E'})
    requires IsMantissa(u[..k]) && (k == |u| || IsExponent(u[k + 1..]))
    ensures NoChar(u, ']')
  {
    MantissaNoBracket(u[..k]);
    if k < |u| {
      ExponentNoBracket(u[k + 1..]);
      NoCharConcat([u[k]], u[k + 1..], ']');
      assert u[k..] == [u[k]] + u[k + 1..];
    }
    NoCharConcat(u[..k], u[k..], ']');
    TakeDrop(u, k);
  }

  lemma MantissaNoBracket(m: string)
    requires IsMantissa(m)
    ensures NoChar(m, ']')
  {
    var j := IndexOfAny(m, {'.'});
    if j < |m| {
      NoCharConcat(['.'], m[j + 1..], ']');
      assert m[j..] == ['.'] + m[j + 1..];
    }
    NoCharConcat(m[..j], m[j..], ']');
    assert m == m[..j] + m[j..];
  }

  lemma ExponentNoBracket(e: string)
    requires IsExponent(e)
    ensures NoChar(e, ']')
  {
    var o := if |e| > 0 && (e[0] == '-' || e[0] == '+') then 1 else 0;
    NoCharConcat(e[..o], e[o..], ']');
    assert e == e[..o] + e[o..];
  }

  /** A number list holds no `]` either. */
  lemma NumberListNoBracket(c: string)
    requires IsNumberList(c)
    ensures NoChar(c, ']')
  {
    var ps := Split(c, ",");
    forall k | 0 <= k < |ps| ensures NoChar(ps[k], ']') {
      NumberNoBracket(ps[k]);
    }
    JoinSplit(c, ",");
    JoinNoChar(ps, ",", ']');
  }

  /** A text opening with `[` is no number list: its first entry is no number. */
  lemma OpenNotNumberList(c: string)
    requires |c| > 0 && c[0] == '['
    ensures !IsNumberList(c)
  {
    FirstEntryOpens(c);
    OpenNotNumber(Split(c, ",")[0]);
  }

  lemma FirstEntryOpens(c: string)
    requires |c| > 0 && c[0] == '['
    ensures |Split(c, ",")[0]| > 0 && Split(c, ",")[0][0] == '['
  {
    match Find(c, ",")
    case None =>
    case Some(i) =>
      assert i != 0;
  }

  lemma OpenNotNumber(x: string)
    requires |x| > 0 && x[0] == '['
    ensures !IsNumber(x)
  {
    var k := IndexOfAny(x, {'e', 'E'});
    assert k > 0;
    OpenNotMantissa(x[..k]);
  }

  lemma OpenNotMantissa(m: string)
    requires |m| > 0 && m[0] == '['
    ensures !IsMantissa(m)
  {
    var j := IndexOfAny(m, {'.'});
    if j > 0 {
      assert !IsDigit(m[..j][0]);
    }
  }

  /** `findall` takes an admitted group at the front and goes on after it. */
  lemma GroupStep(p: string, rest: string, ok: string -> bool)
    requires ok(p) && NoChar(p, ']')
    ensures BracketedGroups("[" + p + "]" + rest, ok) == [p] + BracketedGroups(rest, ok)
  {
    var u := p + "]" + rest;
    assert ("[" + p + "]" + rest)[1..] == u;
    FindAfter(p, "]", rest);
    assert u[..|p|] == p && u[|p| + 1..] == rest;
  }

  /** A `[` that another `[` follows starts no group, when no admitted group
      opens with `[`. */
  lemma OpenSkip(t: string, ok: string -> bool)
    requires |t| >= 2 && t[0] == '[' && t[1] == '['
    requires forall c :: |c| > 0 && c[0] == '[' ==> !ok(c)
    ensures BracketedGroups(t, ok) == BracketedGroups(t[1..], ok)
  {
    var u := t[1..];
    match Find(u, "]")
    case None =>
    case Some(j) =>
      assert j != 0 by { assert u[0..1] == "["; }
      assert u[..j][0] == '[';
  }

  /** A `,` between groups starts none. */
  lemma CommaSkip(rest: string, ok: string -> bool)
    ensures BracketedGroups("," + rest, ok) == BracketedGroups(rest, ok)
  {
    assert ("," + rest)[1..] == rest;
  }

  /** Bracketed groups separated by commas: `[g0],[g1],…`. */
  function GroupsText(gs: seq<string>): string
    requires |gs| >= 1
  {
    if |gs| == 1 then "[" + gs[0] + "]" else "[" + gs[0] + "]" + ("," + GroupsText(gs[1..]))
  }

  /** `re.findall` on a value `[[g0],[g1],…]` of number lists returns those
      lists, in order; with four lists this is a RAPID robtarget value. */
  lemma Findall(gs: seq<string>)
    requires |gs| >= 1 && forall k :: 0 <= k < |gs| ==> IsNumberList(gs[k])
    ensures NumberGroups("[" + GroupsText(gs) + "]") == gs
  {
    var t := GroupsText(gs);
    var s := "[" + t + "]";
    ConcatAssoc("[", t, "]");
    assert s[1..] == t + "]";
    assert s[1] == t[0];
    forall c | |c| > 0 && c[0] == '[' ensures !IsNumberList(c) {
      OpenNotNumberList(c);
    }
    OpenSkip(s, IsNumberList);
    forall k | 0 <= k < |gs| ensures NoChar(gs[k], ']') {
      NumberListNoBracket(gs[k]);
    }
    FindallFrom(gs, IsNumberList);
  }

  lemma {:induction false} FindallFrom(gs: seq<string>, ok: string -> bool)
    requires |gs| >= 1 && forall k :: 0 <= k < |gs| ==> ok(gs[k]) && NoChar(gs[k], ']')
    ensures BracketedGroups(GroupsText(gs) + "]", ok) == gs
    decreases |gs|
  {
    var g := gs[0];
    if |gs| == 1 {
      GroupStep(g, "]", ok);
      assert "]"[1..] == [];
      assert gs == [g] + [];
    } else {
      var t := GroupsText(gs[1..]);
      ConcatAssoc("[" + g + "]", "," + t, "]");
      ConcatAssoc(",", t, "]");
      GroupStep(g, "," + (t + "]"), ok);
      CommaSkip(t + "]", ok);
      FindallFrom(gs[1..], ok);
      assert gs == [g] + gs[1..];
    }
  }

  lemma ConcatAssoc(a: string, b: string, c: string)
    ensures (a + b) + c == a + (b + c)
  {
  }

  /** An external-axis entry: `9e9` when it reads `9E+09` in any case,
      otherwise `float(x)`. */
  function ExtValue(x: string): Option<real> {
    if Upper(x) == SentinelText then Some(Sentinel) else ParseFloat(x)
  }

  /** The four groups of a declaration body as a robtarget: positions and
      quaternion by `float`, configuration by `int`, external axes by
      `ExtValue`. `None` wherever the code raises: other than four groups, or
      an entry that does not parse. */
  function ParseBody(body: string): (r: Option<RobTarget>)
    ensures var g := NumberGroups(body);
      r.Some? <==> (|g| == 4 && AllParse(Split(g[0], ","), ParseFloat) && AllParse(Split(g[1], ","), ParseFloat)
        && AllParse(Split(g[2], ","), ParseInt) && AllParse(Split(g[3], ","), ExtValue))
    ensures var g := NumberGroups(body);
      r.Some? ==> (|g| == 4 && ReadAs(Split(g[0], ","), ParseFloat, r.value.pos)
        && ReadAs(Split(g[1], ","), ParseFloat, r.value.ori) && ReadAs(Split(g[2], ","), ParseInt, r.value.config)
        && ReadAs(Split(g[3], ","), ExtValue, r.value.ext))
  {
    var g := NumberGroups(body);
    if |g| != 4 then None
    else
      match (ParseAll(Split(g[0], ","), ParseFloat), ParseAll(Split(g[1], ","), ParseFloat),
             ParseAll(Split(g[2], ","), ParseInt), ParseAll(Split(g[3], ","), ExtValue))
      case (Some(p), Some(o), Some(c), Some(e)) => Some(RobTarget(p, o, c, e))
      case _ => None
  }

  /** Every number the group pattern admits is a valid `float` literal, so
      only the configuration group can fail to parse. */
  lemma NumberParses(x: string)
    requires IsNumber(x)
    ensures ParseFloat(x).Some?
  {
    var u := if |x| > 0 && (x[0] == '-' || x[0] == '+') then x[1..] else x;
    var k := IndexOfAny(u, {'e', 'E'});
    var m := u[..k];
    var j := IndexOfAny(m, {'.'});
    assert ParseMantissa(m).Some?;
    if k < |u| {
      var e := u[k + 1..];
      assert ParseInt(e).Some?;
    }
    assert ParseUnsignedFloat(u).Some?;
  }

  function ErrorLine(line: string): string { "! Error: " + line }

  /** `f"{scope} robtarget {name} := {formatted};"`. */
  function ConvertedLine(scope: string, name: string, formatted: string): string {
    scope + " robtarget " + name + " := " + formatted + ";"
  }

  /** A declaration whose scope and name are words, as every match has. */
  predicate Named(d: Declaration) {
    |d.scope| > 0 && AllWordChars(d.scope) && |d.name| > 0 && AllWordChars(d.name)
  }

  /** One iteration of `convert_targets`: the declaration and the converted
      robtarget as `format_robtarget` prints it, or `None` where any step
      raises (no match, not four groups, an entry that does not parse, a
      transform scipy rejects). */
  function Conversion(line: string, input: Frame, output: Frame): (r: Option<(Declaration, string)>)
    ensures r.Some? ==> MatchDeclaration(line) == Some(r.value.0) && Named(r.value.0)
  {
    match MatchDeclaration(line)
    case None => None
    case Some(d) =>
      match ParseBody(d.body)
      case None => None
      case Some(t) =>
        match TargetConverter.TransformRobtarget(t, input, output)
        case None => None
        case Some(r) => Some((d, Format(r)))
  }

  /** The text appended for one line: the converted declaration, or an error
      line carrying the original text. Only error lines start with `!`,
      since a converted line starts with its scope. */
  function Render(line: string, c: Option<(Declaration, string)>): (s: string)
    requires c.Some? ==> Named(c.value.0)
    ensures StartsWith(s, "!") <==> c.None?
  {
    match c
    case None => assert ErrorLine(line)[0] == '!'; ErrorLine(line)
    case Some((d, f)) =>
      var s := ConvertedLine(d.scope, d.name, f);
      assert s[0] == d.scope[0];
      s
  }

  function ConvertLine(line: string, input: Frame, output: Frame): string {
    Render(line, Conversion(line, input, output))
  }

  function ConversionHeader(inputName: string, outputName: string): string {
    "! Converted from " + inputName + " to " + outputName
  }

  /** `full_input_text.strip().split('\n')`. */
  function InputLines(text: string): seq<string> { Split(Strip(text), "\n") }

  /** The conversion of every input line. */
  function Conversions(lines: seq<string>, input: Frame, output: Frame): (cs: seq<Option<(Declaration, string)>>)
    ensures |cs| == |lines| && forall i :: 0 <= i < |cs| && cs[i].Some? ==> Named(cs[i].value.0)
  {
    seq(|lines|, i requires 0 <= i < |lines| => Conversion(lines[i], input, output))
  }

  function Rendered(lines: seq<string>, cs: seq<Option<(Declaration, string)>>): seq<string>
    requires |cs| == |lines| && forall i :: 0 <= i < |cs| && cs[i].Some? ==> Named(cs[i].value.0)
  {
    seq(|lines|, i requires 0 <= i < |lines| => Render(lines[i], cs[i]))
  }

  /** The whole of `converted_targets` after a conversion: the header, then
      one line per input line. */
  function ConvertedTargets(text: string, inputName: string, outputName: string,
                            input: Frame, output: Frame): seq<string>
  {
    var lines := InputLines(text);
    [ConversionHeader(inputName, outputName)] + Rendered(lines, Conversions(lines, input, output))
  }

  /** `re.search(r'robtarget\s+(\w+)', s)` tried at index `i` only. */
  function NameAt(s: string, i: nat): Option<string>
    requires i <= |s|
  {
    if OccursAt(s, "robtarget", i) then
      var (gap, t) := SpaceRun(s[i + 9..]);
      var w := WordRun(t).0;
      if gap != [] && w != [] then Some(w) else None
    else None
  }

  /** The leftmost match of the search at or after `i`. */
  function SearchName(s: string, i: nat): Option<string>
    requires i <= |s|
    decreases |s| - i
  {
    match NameAt(s, i)
    case Some(w) => Some(w)
    case None => if i == |s| then None else SearchName(s, i + 1)
  }

  /** What `display_results` lists for one entry of `converted_targets`:
      a `!` line as it is, otherwise the word after the first `robtarget`,
      and nothing if there is none. */
  function DisplayItem(t: string): seq<string> {
    if StartsWith(t, "!") then [t]
    else
      match SearchName(t, 0)
      case Some(w) => [w]
      case None => []
  }

  function DisplayItems(ts: seq<string>): seq<string> {
    Gather(DisplayItem, ts)
  }

  /** A converted line is listed under its target name, except when its scope
      itself ends in `robtarget`: the search then stops inside the scope and
      lists the keyword instead. */
  lemma {:induction false} DisplayedName(scope: string, name: string, rest: string)
    requires |scope| > 0 && AllWordChars(scope) && |name| > 0 && AllWordChars(name)
    requires rest != [] ==> !IsWordChar(rest[0])
    ensures SearchName(scope + (" robtarget " + (name + rest)), 0)
      == Some(if EndsWith(scope, "robtarget") then "robtarget" else name)
  {
    var s := scope + (" robtarget " + (name + rest));
    var n := |scope|;
    forall i | 0 <= i < n && i + 9 != n ensures NameAt(s, i).None? {
      NoNameInScope(scope, name, rest, i);
    }
    if EndsWith(scope, "robtarget") {
      SearchSkips(s, 0, n - 9);
      KeywordAfterScope(scope, name, rest);
    } else {
      if n >= 9 {
        assert s[n - 9..n] == scope[n - 9..];
        assert NameAt(s, n - 9).None?;
      }
      assert s[n] == ' ';
      SearchSkips(s, 0, n + 1);
      NameAfterKeyword(scope, name, rest);
    }
  }

  lemma {:induction false} SearchSkips(s: string, i: nat, j: nat)
    requires i <= j <= |s| && forall k :: i <= k < j ==> NameAt(s, k).None?
    ensures SearchName(s, i) == SearchName(s, j)
    decreases j - i
  {
    if i < j {
      SearchSkips(s, i + 1, j);
    }
  }

  /** Inside the scope the search cannot match, except where a `robtarget`
      suffix of the scope meets the space after it. */
  lemma NoNameInScope(scope: string, name: string, rest: string, i: nat)
    requires |scope| > 0 && AllWordChars(scope) && i < |scope| && i + 9 != |scope|
    ensures NameAt(scope + (" robtarget " + (name + rest)), i).None?
  {
    var s := scope + (" robtarget " + (name + rest));
    if OccursAt(s, "robtarget", i) && i + 9 < |scope| {
      assert s[i + 9] == scope[i + 9];
    }
  }

  lemma KeywordAfterScope(scope: string, name: string, rest: string)
    requires |scope| >= 9 && EndsWith(scope, "robtarget") && |name| > 0 && AllWordChars(name)
    ensures NameAt(scope + (" robtarget " + (name + rest)), |scope| - 9) == Some("robtarget")
  {
    var s := scope + (" robtarget " + (name + rest));
    var n := |scope|;
    assert s[n - 9..n] == scope[n - 9..];
    var tail := " robtarget " + (name + rest);
    assert s[n..] == tail;
    assert tail == " " + ("robtarget" + (" " + (name + rest)));
    SpaceRunExact(" ", "robtarget" + (" " + (name + rest)));
    WordRunExact("robtarget", " " + (name + rest));
  }

  lemma NameAfterKeyword(scope: string, name: string, rest: string)
    requires |name| > 0 && AllWordChars(name) && (rest != [] ==> !IsWordChar(rest[0]))
    ensures NameAt(scope + (" robtarget " + (name + rest)), |scope| + 1) == Some(name)
  {
    var s := scope + (" robtarget " + (name + rest));
    var n := |scope|;
    assert s[n + 1..n + 10] == "robtarget";
    assert s[n + 10..] == " " + (name + rest);
    SpaceRunExact(" ", name + rest);
    WordRunExact(name, rest);
  }

  /** What the result list shows for one input line: its error line, or the
      name of the converted target (the keyword when the scope ends in
      `robtarget`). */
  function Shown(line: string, c: Option<(Declaration, string)>): string {
    match c
    case None => ErrorLine(line)
    case Some((d, _)) => if EndsWith(d.scope, "robtarget") then "robtarget" else d.name
  }

  lemma RenderShown(line: string, c: Option<(Declaration, string)>)
    requires c.Some? ==> Named(c.value.0)
    ensures DisplayItem(Render(line, c)) == [Shown(line, c)]
  {
    match c
    case None =>
    case Some((d, f)) =>
      var rest := " := " + f + ";";
      assert ConvertedLine(d.scope, d.name, f) == d.scope + (" robtarget " + (d.name + rest));
      DisplayedName(d.scope, d.name, rest);
  }

  function ShownAll(lines: seq<string>, cs: seq<Option<(Declaration, string)>>): seq<string>
    requires |cs| == |lines|
  {
    seq(|lines|, i requires 0 <= i < |lines| => Shown(lines[i], cs[i]))
  }

  /** `display_results` after `convert_targets`: the header, then one entry
      per input line, in order. */
  lemma ResultsOnePerLine(text: string, inputName: string, outputName: string, input: Frame, output: Frame)
    ensures var lines := InputLines(text);
      DisplayItems(ConvertedTargets(text, inputName, outputName, input, output))
        == [ConversionHeader(inputName, outputName)] + ShownAll(lines, Conversions(lines, input, output))
  {
    var lines := InputLines(text);
    RenderedShown(ConversionHeader(inputName, outputName), lines, Conversions(lines, input, output));
  }

  lemma RenderedShown(header: string, lines: seq<string>, cs: seq<Option<(Declaration, string)>>)
    requires |cs| == |lines| && forall i :: 0 <= i < |cs| && cs[i].Some? ==> Named(cs[i].value.0)
    requires StartsWith(header, "!")
    ensures DisplayItems([header] + Rendered(lines, cs)) == [header] + ShownAll(lines, cs)
  {
    var ts := [header] + Rendered(lines, cs);
    var u := [header] + ShownAll(lines, cs);
    forall i | 0 <= i < |ts| ensures DisplayItem(ts[i]) == [u[i]] {
      if i > 0 {
        RenderShown(lines[i - 1], cs[i - 1]);
      }
    }
    GatherSingles(DisplayItem, ts, u);
  }

  /** The name `extract_target_names` takes from one line, if any. */
  function LineName(line: string): (r: seq<string>)
    ensures |r| <= 1
  {
    match MatchHead(Strip(line))
    case Some((h, _)) => [h.name]
    case None => []
  }

  /** `extract_target_names`: the declared names, line by line. */
  function TargetNames(lines: seq<string>): seq<string> {
    Gather(LineName, lines)
  }

  /** The line, once stripped, is a declaration with head `h`. */
  predicate Declares(line: string, h: Head, rest: string) {
    WellShaped(h) && Strip(line) == HeadLine(h, rest)
  }

  lemma LineNameOf(line: string, h: Head, rest: string)
    requires Declares(line, h, rest)
    ensures LineName(line) == [h.name]
  {
    MatchHeadComplete(h, rest);
  }

  /** Every line that is a declaration once stripped contributes its name, in
      order. */
  lemma DeclaredNames(lines: seq<string>, heads: seq<Head>, rests: seq<string>)
    requires |heads| == |lines| && |rests| == |lines|
    requires forall i :: 0 <= i < |lines| ==> Declares(lines[i], heads[i], rests[i])
    ensures |TargetNames(lines)| == |lines|
    ensures forall i :: 0 <= i < |lines| ==> TargetNames(lines)[i] == heads[i].name
  {
    var names := seq(|lines|, i requires 0 <= i < |lines| => heads[i].name);
    forall i | 0 <= i < |lines| ensures LineName(lines[i]) == [names[i]] {
      LineNameOf(lines[i], heads[i], rests[i]);
    }
    GatherSingles(LineName, lines, names);
  }

  /** The registry after `add_coordinate_systems`: every given frame is
      stored under its name, overwriting what was there. */
  function Registered(m: map<string, Frame>, ns: seq<(string, Frame)>): map<string, Frame> {
    if ns == [] then m
    else Registered(m, ns[..|ns| - 1])[ns[|ns| - 1].0 := ns[|ns| - 1].1]
  }

  /** A list widget after `add_coordinate_systems`: a name is appended only
      when the list does not hold it yet. */
  function AppendMissing(xs: seq<string>, ns: seq<(string, Frame)>): seq<string> {
    if ns == [] then xs
    else
      var ys := AppendMissing(xs, ns[..|ns| - 1]);
      if ns[|ns| - 1].0 in ys then ys else ys + [ns[|ns| - 1].0]
  }

  /** The frame registered under a name is the last one given for it. */
  lemma {:induction false} RegisteredOverwrites(m: map<string, Frame>, ns: seq<(string, Frame)>, j: nat)
    requires j < |ns| && forall k :: j < k < |ns| ==> ns[k].0 != ns[j].0
    ensures ns[j].0 in Registered(m, ns) && Registered(m, ns)[ns[j].0] == ns[j].1
  {
    if j < |ns| - 1 {
      RegisteredOverwrites(m, ns[..|ns| - 1], j);
    }
  }

  /** Names not given keep their frames. */
  lemma {:induction false} RegisteredKeeps(m: map<string, Frame>, ns: seq<(string, Frame)>, n: string)
    requires forall k :: 0 <= k < |ns| ==> ns[k].0 != n
    ensures n in Registered(m, ns) <==> n in m
    ensures n in m ==> Registered(m, ns)[n] == m[n]
  {
    if ns != [] {
      RegisteredKeeps(m, ns[..|ns| - 1], n);
    }
  }

  /** The lists only grow at the end, never repeat a name, and list exactly
      the registered names. */
  lemma {:induction false} AppendMissingValid(m: map<string, Frame>, xs: seq<string>, ns: seq<(string, Frame)>)
    requires Distinct(xs) && forall n :: n in m <==> n in xs
    ensures var ys := AppendMissing(xs, ns);
      Distinct(ys) && |xs| <= |ys| && ys[..|xs|] == xs
      && forall n :: n in Registered(m, ns) <==> n in ys
  {
    if ns != [] {
      AppendMissingValid(m, xs, ns[..|ns| - 1]);
    }
  }

  /** One more element of `rs` extends a list that follows the header with
      `rs[..i]`. */
  lemma GrowPrefix<T>(a: seq<T>, rs: seq<T>, i: nat)
    requires |a| == i + 1 && i < |rs| && a[1..] == rs[..i]
    ensures (a + [rs[i]])[1..] == rs[..i + 1]
  {
    assert (a + [rs[i]])[1..] == a[1..] + [rs[i]];
  }

  /** The converter window's state: the pasted text, the names found in it,
      the registry of work objects with the list widget and the two combo
      boxes that show its names, and the outcome of the last conversion. */
  class TargetConverterApp {
    var fullInputText: string
    var targetList: seq<string>
    var coordinateSystems: map<string, Frame>
    var coordList: seq<string>
    var inputCombo: seq<string>
    var outputCombo: seq<string>
    var convertedTargets: seq<string>
    var resultList: seq<string>

    /** The list widget and both combo boxes show the registered names, each
        once. */
    ghost predicate Valid()
      reads this
    {
      inputCombo == coordList && outputCombo == coordList && Distinct(coordList)
      && forall n :: n in coordinateSystems <==> n in coordList
    }

    /** The window as it opens: only `Wobj0` is registered and listed. */
    constructor ()
      ensures Valid()
      ensures fullInputText == "" && targetList == []
      ensures coordinateSystems == map["Wobj0" := Wobj0] && coordList == ["Wobj0"]
      ensures convertedTargets == [] && resultList == []
    {
      fullInputText := "";
      targetList := [];
      coordinateSystems := map["Wobj0" := Wobj0];
      coordList := ["Wobj0"];
      inputCombo := ["Wobj0"];
      outputCombo := ["Wobj0"];
      convertedTargets := [];
      resultList := [];
    }

    /** `extract_target_names`: the name of every line that, once stripped,
        starts with a declaration head, in line order. */
    method ExtractTargetNames(fullText: string) returns (names: seq<string>)
      ensures names == TargetNames(Split(fullText, "\n"))
    {
      var lines := Split(fullText, "\n");
      names := [];
      for i := 0 to |lines|
        invariant names == TargetNames(lines[..i])
      {
        GatherStep(LineName, lines, i);
        match MatchHead(Strip(lines[i])) {
          case Some((h, _)) => names := names + [h.name];
          case None =>
        }
      }
      assert lines[..|lines|] == lines;
    }

    /** `update_input`: keeps the text and lists the names declared in it. */
    method UpdateInput(fullText: string)
      modifies this
      ensures fullInputText == fullText && targetList == TargetNames(Split(fullText, "\n"))
      ensures coordinateSystems == old(coordinateSystems) && coordList == old(coordList)
      ensures inputCombo == old(inputCombo) && outputCombo == old(outputCombo)
      ensures convertedTargets == old(convertedTargets) && resultList == old(resultList)
    {
      var names := ExtractTargetNames(fullText);
      fullInputText := fullText;
      targetList := names;
    }

    /** `add_coordinate_systems`: every given frame is stored under its name,
        replacing an earlier one, and a name is appended to the list widget
        and to each combo box only when it is not shown there yet. */
    method AddCoordinateSystems(ns: seq<(string, Frame)>)
      requires Valid()
      modifies this
      ensures Valid()
      ensures coordinateSystems == Registered(old(coordinateSystems), ns)
      ensures coordList == AppendMissing(old(coordList), ns)
      ensures fullInputText == old(fullInputText) && targetList == old(targetList)
      ensures convertedTargets == old(convertedTargets) && resultList == old(resultList)
    {
      ghost var m0, xs0 := coordinateSystems, coordList;
      for i := 0 to |ns|
        invariant coordinateSystems == Registered(m0, ns[..i])
        invariant coordList == AppendMissing(xs0, ns[..i])
        invariant inputCombo == coordList && outputCombo == coordList
        invariant fullInputText == old(fullInputText) && targetList == old(targetList)
        invariant convertedTargets == old(convertedTargets) && resultList == old(resultList)
      {
        assert ns[..i + 1][..i] == ns[..i];
        var (name, frame) := ns[i];
        coordinateSystems := coordinateSystems[name := frame];
        if name !in coordList {
          coordList := coordList + [name];
        }
        if name !in inputCombo {
          inputCombo := inputCombo + [name];
        }
        if name !in outputCombo {
          outputCombo := outputCombo + [name];
        }
      }
      assert ns[..|ns|] == ns;
      AppendMissingValid(m0, xs0, ns);
    }

    /** `convert_targets`: with both selected names registered, the text's
        lines are converted one by one under a header line and the result
        list is rebuilt; with either name missing nothing changes. */
    method ConvertTargets(inputName: string, outputName: string)
      modifies this
      ensures inputName !in old(coordinateSystems) || outputName !in old(coordinateSystems) ==>
        convertedTargets == old(convertedTargets) && resultList == old(resultList)
      ensures fullInputText == old(fullInputText) && targetList == old(targetList)
      ensures coordinateSystems == old(coordinateSystems) && coordList == old(coordList)
      ensures inputCombo == old(inputCombo) && outputCombo == old(outputCombo)
      ensures inputName in coordinateSystems && outputName in coordinateSystems ==>
        (convertedTargets == ConvertedTargets(fullInputText, inputName, outputName,
                                              coordinateSystems[inputName], coordinateSystems[outputName])
         && resultList == DisplayItems(convertedTargets))
    {
      if inputName !in coordinateSystems || outputName !in coordinateSystems {
        return;
      }
      var input, output := coordinateSystems[inputName], coordinateSystems[outputName];
      var lines := InputLines(fullInputText);
      var converted := ConvertLines(ConversionHeader(inputName, outputName), lines, input, output);
      convertedTargets := converted;
      DisplayResults();
    }

    /** The loop of `convert_targets`: the header, then for each line its
        converted declaration or its error line. */
    method ConvertLines(header: string, lines: seq<string>, input: Frame, output: Frame)
      returns (converted: seq<string>)
      ensures converted == [header] + Rendered(lines, Conversions(lines, input, output))
    {
      ghost var rs := Rendered(lines, Conversions(lines, input, output));
      converted := [header];
      for i := 0 to |lines|
        invariant |converted| == i + 1 && converted[0] == header
        invariant converted[1..] == rs[..i]
      {
        var line := Render(lines[i], Conversion(lines[i], input, output));
        assert line == rs[i];
        GrowPrefix(converted, rs, i);
        converted := converted + [line];
      }
      assert converted == [converted[0]] + converted[1..];
    }

    /** `display_results`: an error or header line is listed as it is, any
        other line by the name after its first `robtarget`, and a line with
        no such name is skipped. */
    method DisplayResults()
      modifies this
      ensures resultList == DisplayItems(convertedTargets)
      ensures fullInputText == old(fullInputText) && targetList == old(targetList)
      ensures coordinateSystems == old(coordinateSystems) && coordList == old(coordList)
      ensures inputCombo == old(inputCombo) && outputCombo == old(outputCombo)
      ensures convertedTargets == old(convertedTargets)
    {
      resultList := ListedItems(convertedTargets);
    }

    /** The loop of `display_results`. */
    method ListedItems(ts: seq<string>) returns (items: seq<string>)
      ensures items == DisplayItems(ts)
    {
      items := [];
      for i := 0 to |ts|
        invariant items == DisplayItems(ts[..i])
      {
        GatherStep(DisplayItem, ts, i);
        var t := ts[i];
        if StartsWith(t, "!") {
          items := items + [t];
        } else {
          match SearchName(t, 0) {
            case Some(name) => items := items + [name];
            case None =>
          }
        }
      }
      assert ts[..|ts|] == ts;
    }
  }
}
