/** The window of the GRobotics target converter
    (GRobotics/Target_converter.py, class `TargetConverterApp`): the
    registry of coordinate systems and its two combo boxes, the targets read
    from the pasted text, and the conversion of every listed target. */
module GRoboticsConverterUi {
  import opened PyStrings
  import opened Robtargets
  import opened GRoboticsConverter
  import opened GRoboticsParse

  /** The registry after `add_coordinate_systems`: a name is stored only when
      it is not registered yet. */
  function AddedSystems(m: map<string, Frame>, ns: seq<(string, Frame)>): map<string, Frame> {
    if ns == [] then m
    else
      var prev := AddedSystems(m, ns[..|ns| - 1]);
      var (name, frame) := ns[|ns| - 1];
      if name in prev then prev else prev[name := frame]
  }

  /** The names appended to the combo boxes, in the order they were added. */
  function AddedNames(m: map<string, Frame>, ns: seq<(string, Frame)>): seq<string> {
    if ns == [] then []
    else
      var name := ns[|ns| - 1].0;
      AddedNames(m, ns[..|ns| - 1]) + (if name in AddedSystems(m, ns[..|ns| - 1]) then [] else [name])
  }

  /** A registered coordinate system is never replaced. */
  lemma {:induction false} AddedKeeps(m: map<string, Frame>, ns: seq<(string, Frame)>, n: string)
    requires n in m
    ensures n in AddedSystems(m, ns) && AddedSystems(m, ns)[n] == m[n]
  {
    if ns != [] {
      AddedKeeps(m, ns[..|ns| - 1], n);
    }
  }

  /** A new name gets the frame it is first given with. */
  lemma {:induction false} AddedFirst(m: map<string, Frame>, ns: seq<(string, Frame)>, j: nat)
    requires j < |ns| && ns[j].0 !in m && forall k :: 0 <= k < j ==> ns[k].0 != ns[j].0
    ensures ns[j].0 in AddedSystems(m, ns) && AddedSystems(m, ns)[ns[j].0] == ns[j].1
  {
    var n := |ns| - 1;
    if j < n {
      AddedFirst(m, ns[..n], j);
    } else {
      AddedAbsent(m, ns[..n], ns[j].0);
    }
  }

  lemma {:induction false} AddedAbsent(m: map<string, Frame>, ns: seq<(string, Frame)>, x: string)
    requires x !in m && forall k :: 0 <= k < |ns| ==> ns[k].0 != x
    ensures x !in AddedSystems(m, ns)
  {
    if ns != [] {
      AddedAbsent(m, ns[..|ns| - 1], x);
    }
  }

  /** The combo boxes keep listing the registered names, each once, in the
      order they were registered. */
  lemma {:induction false} AddedNamesValid(m: map<string, Frame>, xs: seq<string>, ns: seq<(string, Frame)>)
    requires Distinct(xs) && forall x :: x in m <==> x in xs
    ensures Distinct(xs + AddedNames(m, ns))
    ensures forall x :: x in AddedSystems(m, ns) <==> x in xs + AddedNames(m, ns)
  {
    if ns != [] {
      var prev := ns[..|ns| - 1];
      var name := ns[|ns| - 1].0;
      AddedNamesValid(m, xs, prev);
      var before := xs + AddedNames(m, prev);
      if name !in AddedSystems(m, prev) {
        assert name !in before;
        DistinctAppend(before, name);
        assert xs + AddedNames(m, ns) == before + [name];
      } else {
        assert xs + AddedNames(m, ns) == before;
      }
    }
  }

  /** The transform `convert_targets` calls: note the frames are passed as
      (output, input). A missing name raises inside the `try` as well. */
  function Converted(e: Entry, systems: map<string, Frame>, inName: string, outName: string): Option<RobTarget> {
    if inName in systems && outName in systems then
      TransformRobtarget(e.target, systems[outName], systems[inName])
    else None
  }

  /** The result line of one listed target. */
  function ResultFor(name: string, data: map<string, Entry>, systems: map<string, Frame>,
                     inName: string, outName: string): string
  {
    if name !in data then "Invalid target: " + name
    else if Converted(data[name], systems, inName, outName).Some? then name
    else "Error processing target: " + name
  }

  /** The result lines of the listed targets, in list order. */
  function Results(names: seq<string>, data: map<string, Entry>, systems: map<string, Frame>,
                   inName: string, outName: string): seq<string>
  {
    if names == [] then []
    else Results(names[..|names| - 1], data, systems, inName, outName)
         + [ResultFor(names[|names| - 1], data, systems, inName, outName)]
  }

  /** `converted_data` after the loop: every listed target that converted,
      with its scope. */
  function ConvertedData(names: seq<string>, data: map<string, Entry>, systems: map<string, Frame>,
                         inName: string, outName: string): map<string, Entry>
  {
    if names == [] then map[]
    else
      var prev := ConvertedData(names[..|names| - 1], data, systems, inName, outName);
      var name := names[|names| - 1];
      if name in data && Converted(data[name], systems, inName, outName).Some? then
        prev[name := Entry(data[name].scope, Converted(data[name], systems, inName, outName).value)]
      else prev
  }

  /** The insertion order of `converted_data`: a name is placed when it is
      first stored; storing it again keeps its place. */
  function ConvertedOrder(names: seq<string>, data: map<string, Entry>, systems: map<string, Frame>,
                          inName: string, outName: string): seq<string>
  {
    if names == [] then []
    else
      var prevNames := names[..|names| - 1];
      var name := names[|names| - 1];
      ConvertedOrder(prevNames, data, systems, inName, outName)
      + (if name in data && Converted(data[name], systems, inName, outName).Some?
            && name !in ConvertedData(prevNames, data, systems, inName, outName)
         then [name] else [])
  }

  /** One more listed target extends the results, stores the target when it
      converts, and places it when it is stored for the first time. */
  lemma ConvertStep(names: seq<string>, i: nat, data: map<string, Entry>, systems: map<string, Frame>,
                    inName: string, outName: string)
    requires i < |names|
    ensures var prev, name := names[..i], names[i];
      var stored := name in data && Converted(data[name], systems, inName, outName).Some?;
      Results(names[..i + 1], data, systems, inName, outName)
        == Results(prev, data, systems, inName, outName) + [ResultFor(name, data, systems, inName, outName)]
      && ConvertedData(names[..i + 1], data, systems, inName, outName)
        == (if stored then ConvertedData(prev, data, systems, inName, outName)
                             [name := Entry(data[name].scope, Converted(data[name], systems, inName, outName).value)]
            else ConvertedData(prev, data, systems, inName, outName))
      && ConvertedOrder(names[..i + 1], data, systems, inName, outName)
        == ConvertedOrder(prev, data, systems, inName, outName)
           + (if stored && name !in ConvertedData(prev, data, systems, inName, outName) then [name] else [])
  {
    assert names[..i + 1][..i] == names[..i];
  }

  /** One result per listed target, each decided by that target alone: a
      target that fails does not affect the others. */
  lemma {:induction false} ResultsOnePerTarget(names: seq<string>, data: map<string, Entry>,
                                               systems: map<string, Frame>, inName: string, outName: string)
    ensures |Results(names, data, systems, inName, outName)| == |names|
    ensures forall i :: 0 <= i < |names| ==>
      Results(names, data, systems, inName, outName)[i] == ResultFor(names[i], data, systems, inName, outName)
  {
    if names != [] {
      var n := |names| - 1;
      ResultsOnePerTarget(names[..n], data, systems, inName, outName);
      assert forall i :: 0 <= i < n ==> names[..n][i] == names[i];
    }
  }

  /** `converted_data` holds exactly the listed targets that converted, each
      with its scope and its converted lists. */
  lemma {:induction false} ConvertedDataMeaning(names: seq<string>, data: map<string, Entry>,
                                                systems: map<string, Frame>, inName: string, outName: string)
    ensures forall x :: x in ConvertedData(names, data, systems, inName, outName) <==>
      (x in names && x in data && Converted(data[x], systems, inName, outName).Some?)
    ensures forall x :: x in ConvertedData(names, data, systems, inName, outName) ==>
      (x in data && Converted(data[x], systems, inName, outName).Some?
       && ConvertedData(names, data, systems, inName, outName)[x]
          == Entry(data[x].scope, Converted(data[x], systems, inName, outName).value))
  {
    if names != [] {
      var n := |names| - 1;
      ConvertedDataMeaning(names[..n], data, systems, inName, outName);
      assert names == names[..n] + [names[n]];
    }
  }

  /** The order of `converted_data` lists each stored name once. */
  lemma {:induction false} ConvertedOrderValid(names: seq<string>, data: map<string, Entry>,
                                               systems: map<string, Frame>, inName: string, outName: string)
    ensures Distinct(ConvertedOrder(names, data, systems, inName, outName))
    ensures forall x :: x in ConvertedOrder(names, data, systems, inName, outName) <==>
      x in ConvertedData(names, data, systems, inName, outName)
  {
    if names != [] {
      ConvertedOrderValid(names[..|names| - 1], data, systems, inName, outName);
    }
  }

  const NoValidTargets := "No valid robtargets were found."

  /** One line `copy_results` writes: the scope, when there is one, then the
      declaration with the formatted lists. */
  function CopyLine(name: string, e: Entry): string {
    if e.scope != "" then e.scope + " robtarget " + name + ":=" + Format(e.target) + ";"
    else "robtarget " + name + ":=" + Format(e.target) + ";"
  }

  /** The lines `copy_results` writes, in the order of `converted_data`. */
  function CopyLines(order: seq<string>, data: map<string, Entry>): seq<string>
    requires forall x :: x in order ==> x in data
  {
    if order == [] then []
    else CopyLines(order[..|order| - 1], data) + [CopyLine(order[|order| - 1], data[order[|order| - 1]])]
  }

  /** The clipboard text splits back into one line per converted target,
      since no copied line holds a line break. */
  lemma CopiedLinesSplit(order: seq<string>, data: map<string, Entry>)
    requires order != [] && forall x :: x in order ==> x in data
    requires forall x :: x in order ==> NoChar(x, '\n') && NoChar(data[x].scope, '\n')
    ensures Split(Join(CopyLines(order, data), "\n"), "\n") == CopyLines(order, data)
  {
    var ls := CopyLines(order, data);
    CopyLinesOneLine(order, data);
    SplitJoin(ls, "\n");
  }

  lemma {:induction false} CopyLinesOneLine(order: seq<string>, data: map<string, Entry>)
    requires forall x :: x in order ==> x in data
    requires forall x :: x in order ==> NoChar(x, '\n') && NoChar(data[x].scope, '\n')
    ensures |CopyLines(order, data)| == |order|
    ensures forall k :: 0 <= k < |order| ==> NoChar(CopyLines(order, data)[k], '\n')
  {
    if order != [] {
      var n := |order| - 1;
      CopyLinesOneLine(order[..n], data);
      CopyLineOneLine(order[n], data[order[n]]);
    }
  }

  lemma CopyLineOneLine(name: string, e: Entry)
    requires NoChar(name, '\n') && NoChar(e.scope, '\n')
    ensures NoChar(CopyLine(name, e), '\n')
  {
    FormatOneLine(e.target);
    var f := Format(e.target);
    var tail := name + ":=" + f + ";";
    NoCharConcat(name, ":=", '\n');
    NoCharConcat(name + ":=", f, '\n');
    NoCharConcat(name + ":=" + f, ";", '\n');
    if e.scope != "" {
      NoCharConcat(e.scope, " robtarget ", '\n');
      NoCharConcat(e.scope + " robtarget ", name, '\n');
      NoCharConcat(e.scope + " robtarget " + name, ":=", '\n');
      NoCharConcat(e.scope + " robtarget " + name + ":=", f, '\n');
      NoCharConcat(e.scope + " robtarget " + name + ":=" + f, ";", '\n');
    } else {
      NoCharConcat("robtarget ", name, '\n');
      NoCharConcat("robtarget " + name, ":=", '\n');
      NoCharConcat("robtarget " + name + ":=", f, '\n');
      NoCharConcat("robtarget " + name + ":=" + f, ";", '\n');
    }
  }

  /** The converter window's state. */
  class TargetConverterApp {
    var coordinateSystems: map<string, Frame>
    var inputCombo: seq<string>
    var outputCombo: seq<string>
    var robtargetInput: seq<string>
    var robtargetData: map<string, Entry>
    var convertedData: map<string, Entry>
    var convertedOrder: seq<string>
    var resultList: seq<string>

    /** Both combo boxes list the registered names, each once, starting with
        `Wobj0`; the order of `converted_data` lists its names once each. */
    ghost predicate Valid()
      reads this
    {
      inputCombo == outputCombo && Distinct(inputCombo) && |inputCombo| > 0 && inputCombo[0] == "Wobj0"
      && (forall x :: x in coordinateSystems <==> x in inputCombo)
      && Distinct(convertedOrder) && (forall x :: x in convertedData <==> x in convertedOrder)
    }

    /** The window as it opens: only `Wobj0` is registered, nothing is
        loaded or converted. */
    constructor ()
      ensures Valid()
      ensures coordinateSystems == map["Wobj0" := Wobj0] && inputCombo == ["Wobj0"]
      ensures robtargetInput == [] && robtargetData == map[]
      ensures convertedData == map[] && convertedOrder == [] && resultList == []
    {
      coordinateSystems := map["Wobj0" := Wobj0];
      inputCombo := ["Wobj0"];
      outputCombo := ["Wobj0"];
      robtargetInput := [];
      robtargetData := map[];
      convertedData := map[];
      convertedOrder := [];
      resultList := [];
    }

    /** `add_coordinate_systems`: a new name is registered and appended to
        both combo boxes; a name already registered is left as it is. */
    method AddCoordinateSystems(ns: seq<(string, Frame)>)
      requires Valid()
      modifies this
      ensures Valid()
      ensures coordinateSystems == AddedSystems(old(coordinateSystems), ns)
      ensures inputCombo == old(inputCombo) + AddedNames(old(coordinateSystems), ns)
      ensures robtargetInput == old(robtargetInput) && robtargetData == old(robtargetData)
      ensures convertedData == old(convertedData) && convertedOrder == old(convertedOrder)
      ensures resultList == old(resultList)
    {
      ghost var m0, xs0 := coordinateSystems, inputCombo;
      for i := 0 to |ns|
        invariant coordinateSystems == AddedSystems(m0, ns[..i])
        invariant inputCombo == xs0 + AddedNames(m0, ns[..i]) && outputCombo == inputCombo
        invariant robtargetInput == old(robtargetInput) && robtargetData == old(robtargetData)
        invariant convertedData == old(convertedData) && convertedOrder == old(convertedOrder)
        invariant resultList == old(resultList)
      {
        assert ns[..i + 1][..i] == ns[..i];
        var (name, frame) := ns[i];
        if name !in coordinateSystems {
          coordinateSystems := coordinateSystems[name := frame];
          inputCombo := inputCombo + [name];
          outputCombo := outputCombo + [name];
        }
      }
      assert ns[..|ns|] == ns;
      AddedNamesValid(m0, xs0, ns);
    }

    /** `update_input`: the list and the dictionary are cleared and refilled
        from the text's lines; `ok` is `false` when `parse_robtarget_data`
        raised, which ends the method with that line's name listed and no
        data stored for it. */
    method UpdateInput(inputText: string) returns (ok: bool)
      modifies this
      ensures Load(Split(inputText, "\n")) == Loaded(robtargetInput, robtargetData, ok)
      ensures coordinateSystems == old(coordinateSystems) && inputCombo == old(inputCombo)
      ensures outputCombo == old(outputCombo)
      ensures convertedData == old(convertedData) && convertedOrder == old(convertedOrder)
      ensures resultList == old(resultList)
    {
      var lines := Split(inputText, "\n");
      var loaded := LoadLines(lines);
      robtargetInput, robtargetData, ok := loaded.names, loaded.data, loaded.ok;
    }

    /** The loop of `update_input`. */
    method LoadLines(lines: seq<string>) returns (loaded: Loaded)
      ensures loaded == Load(lines)
    {
      var names, data := [], map[];
      for i := 0 to |lines|
        invariant Load(lines[..i]) == Loaded(names, data, true)
      {
        LoadStep(Reading, lines, i);
        match MatchTarget(Strip(lines[i])) {
          case None =>
          case Some((t, _)) =>
            names := names + [t.name];
            match ParseRobtargetData(DataLine(t.groups, "")) {
              case None =>
                LoadStopped(Reading, lines, i + 1);
                return Loaded(names, data, false);
              case Some(rt) =>
                data := data[t.name := Entry(ScopeOf(t), rt)];
            }
        }
      }
      assert lines[..|lines|] == lines;
      return Loaded(names, data, true);
    }

    /** `convert_targets`: with the same system selected twice nothing
        changes; otherwise every listed target gets one result line and every
        target that converted is stored with its scope. */
    method ConvertTargets(inName: string, outName: string)
      requires Valid()
      modifies this
      ensures Valid()
      ensures coordinateSystems == old(coordinateSystems) && inputCombo == old(inputCombo)
      ensures outputCombo == old(outputCombo)
      ensures robtargetInput == old(robtargetInput) && robtargetData == old(robtargetData)
      ensures inName == outName ==>
        convertedData == old(convertedData) && convertedOrder == old(convertedOrder)
        && resultList == old(resultList)
      ensures inName != outName ==>
        (var results := Results(robtargetInput, robtargetData, coordinateSystems, inName, outName);
         resultList == (if results == [] then [NoValidTargets] else results)
         && convertedData == ConvertedData(robtargetInput, robtargetData, coordinateSystems, inName, outName)
         && convertedOrder == ConvertedOrder(robtargetInput, robtargetData, coordinateSystems, inName, outName))
    {
      if inName == outName {
        return;
      }
      var results, data, order := ConvertAll(robtargetInput, robtargetData, coordinateSystems, inName, outName);
      convertedData, convertedOrder := data, order;
      resultList := if results == [] then [NoValidTargets] else results;
      ConvertedOrderValid(robtargetInput, robtargetData, coordinateSystems, inName, outName);
    }

    /** The loop of `convert_targets`. */
    method ConvertAll(names: seq<string>, data: map<string, Entry>, systems: map<string, Frame>,
                      inName: string, outName: string)
      returns (results: seq<string>, converted: map<string, Entry>, order: seq<string>)
      ensures results == Results(names, data, systems, inName, outName)
      ensures converted == ConvertedData(names, data, systems, inName, outName)
      ensures order == ConvertedOrder(names, data, systems, inName, outName)
    {
      results, converted, order := [], map[], [];
      for i := 0 to |names|
        invariant results == Results(names[..i], data, systems, inName, outName)
        invariant converted == ConvertedData(names[..i], data, systems, inName, outName)
        invariant order == ConvertedOrder(names[..i], data, systems, inName, outName)
      {
        ConvertStep(names, i, data, systems, inName, outName);
        var name := names[i];
        if name in data {
          var info := data[name];
          var r := Converted(info, systems, inName, outName);
          if r.Some? {
            if name !in converted {
              order := order + [name];
            }
            converted := converted[name := Entry(info.scope, r.value)];
            results := results + [name];
          } else {
            results := results + ["Error processing target: " + name];
          }
        } else {
          results := results + ["Invalid target: " + name];
        }
      }
      assert names[..|names|] == names;
    }

    /** `copy_results`: the clipboard text, one line per converted target in
        the order of `converted_data`; nothing is copied when there is none. */
    method CopyResults() returns (clipboard: Option<string>)
      requires Valid()
      ensures clipboard == if convertedOrder == [] then None
                           else Some(Join(CopyLines(convertedOrder, convertedData), "\n"))
    {
      var lines := [];
      for i := 0 to |convertedOrder|
        invariant lines == CopyLines(convertedOrder[..i], convertedData)
      {
        assert convertedOrder[..i + 1][..i] == convertedOrder[..i];
        var name := convertedOrder[i];
        lines := lines + [CopyLine(name, convertedData[name])];
      }
      assert convertedOrder[..|convertedOrder|] == convertedOrder;
      if lines == [] {
        return None;
      }
      return Some(Join(lines, "\n"));
    }
  }
}
