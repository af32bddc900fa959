/** The text side of the GRobotics target converter
    (GRobotics/Target_converter.py): the declaration pattern `update_input`
    matches, `parse_robtarget_data`, and what loading a pasted text leaves in
    the target list and in the data dictionary. */
module GRoboticsParse {
  import opened PyStrings
  import opened PyNumbers
  import opened Robtargets

  /** `[-\d.,]`: the characters of the position, orientation and
      configuration groups. */
  const NumberChars: set<char> := {'-', '.', ',', '0', '1', '2', '3', '4', '5', '6', '7', '8', '9'}

  /** `[-\d.E+,]` under `re.IGNORECASE`: the external-axis group also takes
      `E`, `e` and `+`. */
  const ExtChars: set<char> := NumberChars + {'E', 'e', '+'}

  /** The literal `kw` at the start of `s`, compared as `re.IGNORECASE`
      does: the text as written, and what follows it. */
  function LiteralIgnoringCase(s: string, kw: string): (r: Option<(string, string)>)
    ensures r.Some? ==> EqualIgnoringCase(r.value.0, kw) && s == r.value.0 + r.value.1
  {
    if |kw| <= |s| && EqualIgnoringCase(s[..|kw|], kw) then
      assert s == s[..|kw|] + s[|kw|..];
      Some((s[..|kw|], s[|kw|..]))
    else None
  }

  lemma LiteralIgnoringCaseExact(x: string, kw: string, rest: string)
    requires EqualIgnoringCase(x, kw)
    ensures LiteralIgnoringCase(x + rest, kw) == Some((x, rest))
  {
    assert (x + rest)[..|kw|] == x;
    assert (x + rest)[|kw|..] == rest;
  }

  /** What an optional group `(kw\s+)?` matched: nothing, or the keyword in
      any case followed by at least one whitespace character. */
  predicate KeywordGroup(p: string, kw: string) {
    p == [] || (|kw| < |p| && EqualIgnoringCase(p[..|kw|], kw) && AllSpaces(p[|kw|..]))
  }

  /** The optional group `(kw\s+)?` at the start of `s`. When the group
      cannot match, it matches nothing; the longest whitespace run is the
      only one that lets the pattern go on, since no later part starts with
      whitespace. */
  function OptionalKeyword(s: string, kw: string): (r: (string, string))
    ensures s == r.0 + r.1 && KeywordGroup(r.0, kw)
    ensures r.0 != [] ==> r.1 == [] || !IsSpace(r.1[0])
  {
    match LiteralIgnoringCase(s, kw)
    case None => ([], s)
    case Some((k, t)) =>
      var (g, u) := SpaceRun(t);
      if g == [] then ([], s)
      else
        assert (k + g)[..|kw|] == k && (k + g)[|kw|..] == g;
        (k + g, u)
  }

  /** A matched group is found again in front of any text that does not
      start with whitespace. */
  lemma OptionalKeywordPresent(p: string, kw: string, rest: string)
    requires p != [] && KeywordGroup(p, kw) && (rest == [] || !IsSpace(rest[0]))
    ensures OptionalKeyword(p + rest, kw) == (p, rest)
  {
    var k, g := p[..|kw|], p[|kw|..];
    assert p == k + g;
    assert p + rest == k + (g + rest);
    LiteralIgnoringCaseExact(k, kw, g + rest);
    SpaceRunExact(g, rest);
  }

  /** An absent group stays absent in front of text whose first letter is
      not the keyword's. */
  lemma OptionalKeywordAbsent(kw: string, rest: string)
    requires |kw| > 0 && (rest == [] || LowerChar(rest[0]) != LowerChar(kw[0]))
    ensures OptionalKeyword(rest, kw) == ([], rest)
  {
    if |kw| <= |rest| {
      assert rest[..|kw|][0] == rest[0];
    }
  }

  /** The four bracketed groups of a robtarget literal, without brackets. */
  datatype Groups = Groups(pos: string, ori: string, config: string, ext: string)

  /** The groups `[-\d.,]+` three times, then `[-\d.E+,]+`. */
  predicate GroupsShaped(g: Groups) {
    |g.pos| > 0 && AllIn(g.pos, NumberChars) && |g.ori| > 0 && AllIn(g.ori, NumberChars)
    && |g.config| > 0 && AllIn(g.config, NumberChars) && |g.ext| > 0 && AllIn(g.ext, ExtChars)
  }

  /** `[[pos],[ori],[config],[ext]]` followed by `rest`. */
  function DataLine(g: Groups, rest: string): string {
    "[[" + (g.pos + ("],[" + (g.ori + ("],[" + (g.config + ("],[" + (g.ext + ("]]" + rest))))))))
  }

  /** The data group of the pattern,
      `\[\[[-\d.,]+\],\[[-\d.,]+\],\[[-\d.,]+\],\[[-\d.E+,]+\]\]`, at the
      start of `s`. No group character is a bracket, so every run is
      maximal. */
  function MatchData(s: string): (r: Option<(Groups, string)>)
    ensures r.Some? ==> GroupsShaped(r.value.0) && s == DataLine(r.value.0, r.value.1)
  {
    match Literal(s, "[[")
    case None => None
    case Some(t0) =>
      var (pos, t1) := Run(t0, NumberChars);
      match Literal(t1, "],[")
      case None => None
      case Some(t2) =>
        var (ori, t3) := Run(t2, NumberChars);
        match Literal(t3, "],[")
        case None => None
        case Some(t4) =>
          var (config, t5) := Run(t4, NumberChars);
          match Literal(t5, "],[")
          case None => None
          case Some(t6) =>
            var (ext, t7) := Run(t6, ExtChars);
            match Literal(t7, "]]")
            case None => None
            case Some(rest) =>
              if pos == [] || ori == [] || config == [] || ext == [] then None
              else Some((Groups(pos, ori, config, ext), rest))
  }

  /** Every well-shaped data group is matched, and with exactly its groups. */
  lemma MatchDataComplete(g: Groups, rest: string)
    requires GroupsShaped(g)
    ensures MatchData(DataLine(g, rest)) == Some((g, rest))
  {
    var t7 := "]]" + rest;
    var t6 := g.ext + t7;
    var t5 := "],[" + t6;
    var t4 := g.config + t5;
    var t3 := "],[" + t4;
    var t2 := g.ori + t3;
    var t1 := "],[" + t2;
    var t0 := g.pos + t1;
    LiteralExact("[[", t0);
    RunExact(g.pos, t1, NumberChars);
    LiteralExact("],[", t2);
    RunExact(g.ori, t3, NumberChars);
    LiteralExact("],[", t4);
    RunExact(g.config, t5, NumberChars);
    LiteralExact("],[", t6);
    RunExact(g.ext, t7, ExtChars);
    LiteralExact("]]", rest);
  }

  /** A declaration `update_input` accepts, part by part: the optional
      `local` and `const` groups, the keyword as written, the name and the
      whitespace around `:=`. */
  datatype Target = Target(local: string, constant: string, keyword: string, gap1: string,
                           name: string, gap2: string, gap3: string, groups: Groups)

  predicate Shaped(t: Target) {
    KeywordGroup(t.local, "local") && KeywordGroup(t.constant, "const")
    && EqualIgnoringCase(t.keyword, "robtarget")
    && |t.gap1| > 0 && AllSpaces(t.gap1) && |t.name| > 0 && AllWordChars(t.name)
    && AllSpaces(t.gap2) && AllSpaces(t.gap3) && GroupsShaped(t.groups)
  }

  /** The declaration `t`, its closing `;`, and whatever follows. */
  function TargetLine(t: Target, rest: string): string {
    t.local + (t.constant + (t.keyword + (t.gap1 + (t.name + (t.gap2 + (":=" + (t.gap3
      + DataLine(t.groups, ";" + rest))))))))
  }

  /** The part of a line after the optional groups. */
  function Declared(t: Target, rest: string): string {
    t.keyword + (t.gap1 + (t.name + (t.gap2 + (":=" + (t.gap3 + DataLine(t.groups, ";" + rest))))))
  }

  /** `re.match(r'(local\s+)?(const\s+)?robtarget\s+(\w+)\s*:=\s*(<data>);',
      line, re.IGNORECASE)`: the declaration the line starts with and the
      text after its `;`. The pattern is anchored at the start only. */
  function MatchTarget(s: string): (r: Option<(Target, string)>)
    ensures r.Some? ==> Shaped(r.value.0) && s == TargetLine(r.value.0, r.value.1)
  {
    var (local, s1) := OptionalKeyword(s, "local");
    var (constant, s2) := OptionalKeyword(s1, "const");
    match MatchDeclared(s2)
    case None => None
    case Some((t, rest)) => Some((t.(local := local, constant := constant), rest))
  }

  /** The pattern from `robtarget` on. */
  function MatchDeclared(s: string): (r: Option<(Target, string)>)
    ensures r.Some? ==> r.value.0.local == [] && r.value.0.constant == []
    ensures r.Some? ==>
      (EqualIgnoringCase(r.value.0.keyword, "robtarget")
       && |r.value.0.gap1| > 0 && AllSpaces(r.value.0.gap1)
       && |r.value.0.name| > 0 && AllWordChars(r.value.0.name)
       && AllSpaces(r.value.0.gap2) && AllSpaces(r.value.0.gap3) && GroupsShaped(r.value.0.groups))
    ensures r.Some? ==> s == Declared(r.value.0, r.value.1)
  {
    match LiteralIgnoringCase(s, "robtarget")
    case None => None
    case Some((kw, s3)) =>
      var (gap1, s4) := SpaceRun(s3);
      var (name, s5) := WordRun(s4);
      var (gap2, s6) := SpaceRun(s5);
      match Literal(s6, ":=")
      case None => None
      case Some(s7) =>
        var (gap3, s8) := SpaceRun(s7);
        match MatchData(s8)
        case None => None
        case Some((g, s9)) =>
          match Literal(s9, ";")
          case None => None
          case Some(rest) =>
            if gap1 == [] || name == [] then None
            else Some((Target([], [], kw, gap1, name, gap2, gap3, g), rest))
  }

  lemma MatchDeclaredComplete(t: Target, rest: string)
    requires Shaped(t)
    ensures MatchDeclared(Declared(t, rest)) == Some((t.(local := [], constant := []), rest))
  {
    var s9 := ";" + rest;
    var s8 := DataLine(t.groups, s9);
    var s7 := t.gap3 + s8;
    var s6 := ":=" + s7;
    var s5 := t.gap2 + s6;
    var s4 := t.name + s5;
    var s3 := t.gap1 + s4;
    LiteralIgnoringCaseExact(t.keyword, "robtarget", s3);
    SpaceRunExact(t.gap1, s4);
    WordRunExact(t.name, s5);
    SpaceRunExact(t.gap2, s6);
    LiteralExact(":=", s7);
    SpaceRunExact(t.gap3, s8);
    MatchDataComplete(t.groups, s9);
    LiteralExact(";", rest);
  }

  /** Every line that starts with a well-shaped declaration is matched, and
      with exactly that declaration. */
  lemma MatchTargetComplete(t: Target, rest: string)
    requires Shaped(t)
    ensures MatchTarget(TargetLine(t, rest)) == Some((t, rest))
  {
    var d := Declared(t, rest);
    var s1 := t.constant + d;
    assert TargetLine(t, rest) == t.local + s1;
    assert LowerChar(t.keyword[0]) == 'r' by { assert LowerChar(t.keyword[0]) == LowerChar("robtarget"[0]); }
    if t.constant == [] {
      assert s1 == d;
      OptionalKeywordAbsent("const", d);
    } else {
      assert LowerChar(s1[0]) == 'c' by {
        assert s1[0] == t.constant[..5][0];
        assert LowerChar(t.constant[..5][0]) == LowerChar("const"[0]);
      }
      OptionalKeywordPresent(t.constant, "const", d);
    }
    if t.local == [] {
      OptionalKeywordAbsent("local", s1);
    } else {
      OptionalKeywordPresent(t.local, "local", s1);
    }
    MatchDeclaredComplete(t, rest);
  }

  /** The `scope` `update_input` stores: `LOCAL` and `CONST` for the groups
      that matched, joined by a space. */
  function ScopeOf(t: Target): string {
    Join((if t.local != [] then ["LOCAL"] else []) + (if t.constant != [] then ["CONST"] else []), " ")
  }

  /** The four scopes a declaration can have. */
  lemma ScopeValues(t: Target)
    ensures ScopeOf(t) == if t.local != [] && t.constant != [] then "LOCAL CONST"
                          else if t.local != [] then "LOCAL"
                          else if t.constant != [] then "CONST"
                          else ""
  {
    if t.local != [] && t.constant != [] {
      assert ["LOCAL"] + ["CONST"] == ["LOCAL", "CONST"];
      assert ["LOCAL", "CONST"][1..] == ["CONST"];
    }
  }

  /** The four lists of a robtarget, parsed with `float`, `float`, `int` and
      `float` entry by entry; `None` where one of them raises. */
  function GroupsParse(pos: string, ori: string, config: string, ext: string): (r: Option<RobTarget>)
    ensures r.Some? <==>
      (AllParse(Split(pos, ","), ParseFloat) && AllParse(Split(ori, ","), ParseFloat)
       && AllParse(Split(config, ","), ParseInt) && AllParse(Split(ext, ","), ParseFloat))
    ensures r.Some? ==>
      (ReadAs(Split(pos, ","), ParseFloat, r.value.pos) && ReadAs(Split(ori, ","), ParseFloat, r.value.ori)
       && ReadAs(Split(config, ","), ParseInt, r.value.config) && ReadAs(Split(ext, ","), ParseFloat, r.value.ext))
  {
    match (ParseAll(Split(pos, ","), ParseFloat), ParseAll(Split(ori, ","), ParseFloat),
           ParseAll(Split(config, ","), ParseInt), ParseAll(Split(ext, ","), ParseFloat))
    case (Some(p), Some(o), Some(c), Some(e)) => Some(RobTarget(p, o, c, e))
    case _ => None
  }

  const Brackets: set<char> := {'[', ']'}

  /** `parse_robtarget_data`: the text without its surrounding brackets,
      split on `],[`; fewer than four parts raise `IndexError`, a part
      beyond the fourth is ignored. */
  function ParseRobtargetData(data: string): (r: Option<RobTarget>)
    ensures r.Some? ==> |Split(StripChars(data, Brackets), "],[")| >= 4
  {
    var parts := Split(StripChars(data, Brackets), "],[");
    if |parts| < 4 then None
    else GroupsParse(parts[0], parts[1], parts[2], parts[3])
  }

  /** On the data text the pattern accepted, `parse_robtarget_data` sees
      exactly the four matched groups. */
  lemma DataParses(g: Groups)
    requires GroupsShaped(g)
    ensures ParseRobtargetData(DataLine(g, "")) == GroupsParse(g.pos, g.ori, g.config, g.ext)
  {
    var body := Join([g.pos, g.ori, g.config, g.ext], "],[");
    JoinGroups(g);
    StripBrackets(g, body);
    forall k | 0 <= k < 4 ensures NoChar([g.pos, g.ori, g.config, g.ext][k], ']') {
      GroupNoBracket([g.pos, g.ori, g.config, g.ext][k], k == 3);
    }
    SplitJoin([g.pos, g.ori, g.config, g.ext], "],[");
  }

  lemma JoinGroups(g: Groups)
    ensures Join([g.pos, g.ori, g.config, g.ext], "],[")
      == g.pos + ("],[" + (g.ori + ("],[" + (g.config + ("],[" + g.ext)))))
  {
    var sep := "],[";
    var xs := [g.pos, g.ori, g.config, g.ext];
    assert xs[1..] == [g.ori, g.config, g.ext];
    assert xs[1..][1..] == [g.config, g.ext];
    assert xs[1..][1..][1..] == [g.ext];
    assert Join([g.config, g.ext], sep) == g.config + (sep + g.ext);
    assert Join([g.ori, g.config, g.ext], sep) == g.ori + (sep + (g.config + (sep + g.ext)));
  }

  lemma GroupNoBracket(x: string, ext: bool)
    requires AllIn(x, if ext then ExtChars else NumberChars)
    ensures NoChar(x, ']') && NoChar(x, '[')
  {
  }

  /** `strip('[]')` on the data text removes the two brackets on each side
      and nothing else, since the groups hold no bracket. */
  lemma StripBrackets(g: Groups, body: string)
    requires GroupsShaped(g)
    requires body == g.pos + ("],[" + (g.ori + ("],[" + (g.config + ("],[" + g.ext)))))
    ensures StripChars(DataLine(g, ""), Brackets) == body
  {
    assert DataLine(g, "") == "[[" + (body + "]]");
    assert body[0] == g.pos[0];
    assert body[|body| - 1] == g.ext[|g.ext| - 1];
    StripCharsAround("[[", body, "]]", Brackets);
  }

  /** Characters from `cs` around a text that neither starts nor ends with
      one are exactly what `strip` removes. */
  lemma {:induction false} StripCharsAround(l: string, body: string, r: string, cs: set<char>)
    requires |body| > 0 && body[0] !in cs && body[|body| - 1] !in cs
    requires AllIn(l, cs) && AllIn(r, cs)
    ensures StripChars(l + (body + r), cs) == body
    decreases |l| + |r|
  {
    var x := body + r;
    if l != [] {
      assert (l + x)[1..] == l[1..] + x;
      StripCharsAround(l[1..], body, r, cs);
    } else if r != [] {
      assert l + x == x;
      assert x[0] == body[0];
      assert x[..|x| - 1] == body + r[..|r| - 1];
      assert [] + (body + r[..|r| - 1]) == body + r[..|r| - 1];
      StripCharsAround([], body, r[..|r| - 1], cs);
    } else {
      assert l + x == body;
    }
  }

  /** What `update_input` stores for a name: the scope and the parsed lists. */
  datatype Entry = Entry(scope: string, target: RobTarget)

  /** What one line gives `update_input`: the declared name, and its entry
      unless `parse_robtarget_data` raised. */
  datatype Read = Read(name: string, entry: Option<Entry>)

  /** The target list widget, the data dictionary, and whether loading ran
      to the end (`false` once `parse_robtarget_data` raised). */
  datatype Loaded = Loaded(names: seq<string>, data: map<string, Entry>, ok: bool)

  /** The declaration a pasted line holds once stripped, if any. */
  function LineMatch(line: string): Option<(Target, string)> {
    MatchTarget(Strip(line))
  }

  /** One line as `update_input` reads it. */
  function Reading(line: string): Option<Read> {
    match LineMatch(line)
    case None => None
    case Some((t, _)) =>
      match ParseRobtargetData(DataLine(t.groups, ""))
      case None => Some(Read(t.name, None))
      case Some(rt) => Some(Read(t.name, Some(Entry(ScopeOf(t), rt))))
  }

  /** A declared line is read with its name, its scope and the four groups
      it holds, parsed entry by entry. */
  lemma ReadingMeaning(line: string, t: Target, rest: string)
    requires LineMatch(line) == Some((t, rest))
    ensures Reading(line).Some? && Reading(line).value.name == t.name && AllWordChars(t.name)
    ensures var g := t.groups;
      Reading(line).value.entry ==
        match GroupsParse(g.pos, g.ori, g.config, g.ext)
        case None => None
        case Some(rt) => Some(Entry(ScopeOf(t), rt))
  {
    DataParses(t.groups);
  }

  /** One line of `update_input`: a declaration's name is listed first, then
      its entry is stored under the name; a parse that raised stops the
      loading with the name listed and nothing stored. */
  function LoadLine(prev: Loaded, r: Option<Read>): Loaded {
    match r
    case None => prev
    case Some(Read(name, None)) => Loaded(prev.names + [name], prev.data, false)
    case Some(Read(name, Some(e))) => Loaded(prev.names + [name], prev.data[name := e], true)
  }

  /** Loading lines read by `read`, starting from empty widgets. */
  function LoadWith(read: string -> Option<Read>, lines: seq<string>): Loaded {
    if lines == [] then Loaded([], map[], true)
    else
      var prev := LoadWith(read, lines[..|lines| - 1]);
      if prev.ok then LoadLine(prev, read(lines[|lines| - 1])) else prev
  }

  /** `update_input` on the lines of a text. */
  function Load(lines: seq<string>): Loaded {
    LoadWith(Reading, lines)
  }

  /** The names of the declared lines, in line order. */
  function ReadNames(read: string -> Option<Read>, lines: seq<string>): seq<string> {
    if lines == [] then []
    else
      var r := read(lines[|lines| - 1]);
      ReadNames(read, lines[..|lines| - 1]) + (if r.Some? then [r.value.name] else [])
  }

  /** The line is no declaration, or its data parsed. */
  predicate Parses(r: Option<Read>) {
    r.None? || r.value.entry.Some?
  }

  lemma LoadStep(read: string -> Option<Read>, lines: seq<string>, i: nat)
    requires i < |lines|
    ensures LoadWith(read, lines[..i + 1]) ==
      if LoadWith(read, lines[..i]).ok then LoadLine(LoadWith(read, lines[..i]), read(lines[i]))
      else LoadWith(read, lines[..i])
  {
    assert lines[..i + 1][..i] == lines[..i];
  }

  /** Loading runs to the end exactly when every declaration's data parses. */
  lemma {:induction false} LoadOk(read: string -> Option<Read>, lines: seq<string>)
    ensures LoadWith(read, lines).ok <==> forall i :: 0 <= i < |lines| ==> Parses(read(lines[i]))
  {
    if lines != [] {
      var n := |lines| - 1;
      LoadOk(read, lines[..n]);
      assert forall i :: 0 <= i < n ==> lines[..n][i] == lines[i];
    }
  }

  /** A load that runs to the end lists every declared name, in line order,
      once per declaration: a name declared twice is listed twice. */
  lemma {:induction false} LoadListsMatches(read: string -> Option<Read>, lines: seq<string>)
    requires LoadWith(read, lines).ok
    ensures LoadWith(read, lines).names == ReadNames(read, lines)
  {
    if lines != [] {
      LoadListsMatches(read, lines[..|lines| - 1]);
    }
  }

  /** When line `k` is the first whose data does not parse, the list ends
      with that line's name, the dictionary is what the earlier lines left,
      and the later lines are never read. */
  lemma {:induction false} LoadFailsAt(read: string -> Option<Read>, lines: seq<string>, k: nat)
    requires k < |lines| && !Parses(read(lines[k]))
    requires forall i :: 0 <= i < k ==> Parses(read(lines[i]))
    ensures !LoadWith(read, lines).ok
    ensures LoadWith(read, lines).names == ReadNames(read, lines[..k + 1])
    ensures LoadWith(read, lines).data == LoadWith(read, lines[..k]).data
  {
    LoadOk(read, lines[..k]);
    assert forall i :: 0 <= i < k ==> lines[..k][i] == lines[i];
    LoadStep(read, lines, k);
    LoadListsMatches(read, lines[..k]);
    assert lines[..k + 1][..k] == lines[..k];
    LoadStopped(read, lines, k + 1);
  }

  /** Once a prefix has stopped the loading, the rest changes nothing. */
  lemma {:induction false} LoadStopped(read: string -> Option<Read>, lines: seq<string>, k: nat)
    requires k <= |lines| && !LoadWith(read, lines[..k]).ok
    ensures LoadWith(read, lines) == LoadWith(read, lines[..k])
    decreases |lines| - k
  {
    if k < |lines| {
      LoadStep(read, lines, k);
      LoadStopped(read, lines, k + 1);
    } else {
      assert lines[..k] == lines;
    }
  }

  /** Of several declarations of one name, the last one's entry is kept. */
  lemma {:induction false} LoadLastWins(read: string -> Option<Read>, lines: seq<string>, j: nat, n: string, e: Option<Entry>)
    requires LoadWith(read, lines).ok && j < |lines| && read(lines[j]) == Some(Read(n, e))
    requires forall k :: j < k < |lines| ==> read(lines[k]).None? || read(lines[k]).value.name != n
    ensures e.Some? && n in LoadWith(read, lines).data && LoadWith(read, lines).data[n] == e.value
  {
    var m := |lines| - 1;
    assert LoadWith(read, lines[..m]).ok;
    if j < m {
      assert forall k :: j < k < m ==> lines[..m][k] == lines[k];
      LoadLastWins(read, lines[..m], j, n, e);
    }
  }

  /** Every stored name is listed, and after a complete load every listed
      name has its entry. */
  lemma {:induction false} LoadDataListed(read: string -> Option<Read>, lines: seq<string>)
    ensures forall x :: x in LoadWith(read, lines).data ==> x in LoadWith(read, lines).names
    ensures LoadWith(read, lines).ok ==>
      forall i :: 0 <= i < |LoadWith(read, lines).names| ==> LoadWith(read, lines).names[i] in LoadWith(read, lines).data
  {
    if lines != [] {
      LoadDataListed(read, lines[..|lines| - 1]);
    }
  }
}
