# Robot target conversion and movement parsing, modelled in Dafny

This project models the logic inside three tools for ABB RAPID robot programs. Everything around that logic is Qt window code.

- **Target converter, stand-alone edition** (`Target_converter/Target_converter.py`).
  - Reads `robtarget` declarations pasted as text.
  - Converts each declaration from one work-object frame into another: `R_out⁻¹ (R_in p + t_in − t_out)` for the position and `q_out⁻¹ ⊗ q_in ⊗ q` for the orientation.
  - Writes the converted declarations back in RAPID syntax.
  - Keeps a registry of named frames, a list of target names and a result list.
- **Target converter, GRobotics edition** (`GRobotics/Target_converter.py`; `GRobotics/GRobotics/Target_converter.py` is an identical copy).
  - Builds the same kind of conversion from `invert_transformation` and `apply_transformation`: `R_B R_A⁻¹ (p − t_A) + t_B` and `q_B ⊗ q_A⁻¹ ⊗ q`.
  - Its window calls that conversion with the two frames swapped.
  - Its window also keeps a frame registry that refuses duplicate names, a dictionary of parsed targets with their `LOCAL`/`CONST` scope, a dictionary of converted targets and a clipboard export.
- **Movement parser** (`GRobotics/Robot_Mov_Parser.py`).
  - Finds the `MoveJ`/`MoveL`/`MoveC` lines of a RAPID module.
  - Takes the inline target literal out of each line, and gives every distinct literal a numbered variable (`p_10`, `p_20`, …) together with its declaration.
  - Rewrites the module: inserts the declaration block after the `MODULE` line and replaces each inline literal with its variable name.

Modules:
- `Quaternions` holds the Hamilton product, scipy's inverse, rotation of a vector and scipy's rotation matrix.
- `Robtargets` holds the target and frame values, the world/local maps of a frame and `format_robtarget` (identical in both editions).
- `TargetConverter` and `TargetConverterUi` model the stand-alone edition.
- `GRoboticsConverter`, `GRoboticsParse` and `GRoboticsConverterUi` model the GRobotics edition.
- `MovParser` models the movement parser.
- `PyStrings` and `PyNumbers` give the Python string operations and number conversions the code relies on (`split`, `join`, `strip`, `upper`, `replace`, `in`, `str(int)`, `int()`, `float()`, `f"{x:.2f}"`).

Modelling conventions:
- Numbers are Dafny `real`s.
- A quaternion is the 4-tuple exactly as the code hands it to `Rotation.from_quat`, so its scalar part is last.
- scipy's `Rotation.inv()` negates the stored scalar, so the inverse is the negated conjugate. As a result, the identity and composition laws hold up to the sign of the quaternion, which names the same rotation. Round trips are exact.
- The laws require unit quaternions. scipy's normalisation is not modelled, and a zero quaternion is the error scipy raises.
- Regular expressions are modelled as deterministic matchers that return the matched parts. Each `re.match` has a completeness lemma: every text of the matched shape is matched, with exactly its parts. The stand-alone edition's `re.findall` has a lemma for values of the shape `[[g0],[g1],…]`: it returns exactly the number lists `g0, g1, …`, in order. A RAPID robtarget value is the case of four lists.
- Window state is a `class` whose fields are the dictionaries and list widgets the code mutates. The loops are `while`/`for` loops proved against specification functions.

Where the documented behaviour and the code differ, the model follows the code:
- The built-in `Wobj0` frame is documented as the identity rotation. Its `[1, 0, 0, 0]` is read scalar-last, which makes it a half turn about the x axis (`Robtargets.Wobj0IsHalfTurn`).
- The two editions' code treats a re-added frame differently. The stand-alone `add_coordinate_systems` (`Target_converter/Target_converter.py:371-381`) overwrites it. The GRobotics one (`GRobotics/Target_converter.py:328-336`) refuses it and keeps the first. The model follows each edition's code (`TargetConverterUi.RegisteredOverwrites`, `GRoboticsConverterUi.AddedKeeps`).
- The GRobotics window passes `(output, input)` to `transform_robtarget`. The model keeps the swap. It proves that the result agrees with the stand-alone edition when either frame is the identity, and exhibits a pair of frames where the two editions put the same robtarget at different positions (`GRoboticsConverter.EditionsDiffer`).

## Model

| member | source | states |
|---|---|---|
| Quaternions.Inv | Target_converter/Target_converter.py:29 | scipy's inverse is the conjugate with every component negated; its squared norm equals the original's |
| Quaternions.MulAssoc | Target_converter/Target_converter.py:34 | the rotation product `inv(out) * in * target` may be grouped either way |
| Quaternions.MulOne | Target_converter/Target_converter.py:34 | the unit quaternion is neutral on both sides of the product |
| Quaternions.ConjMul | Target_converter/Target_converter.py:34 | the conjugate of a product is the product of the conjugates in reverse order |
| Quaternions.MulConj | Target_converter/Target_converter.py:34 | a quaternion times its conjugate, in either order, is its squared norm as a scalar |
| Quaternions.MulNegLeft | Target_converter/Target_converter.py:34 | negating the left factor negates the product |
| Quaternions.MulNegRight | Target_converter/Target_converter.py:34 | negating the right factor negates the product |
| Quaternions.NormSqMul | Target_converter/Target_converter.py:34 | the squared norm is multiplicative, so products of unit quaternions are unit |
| Quaternions.MatrixRotate | GRobotics/Target_converter.py:16-18 | the matrix `as_matrix` builds, applied to `v`, is the vector part of `q (0,v) q*`, and that product has zero scalar part |
| Quaternions.RotateAdd | Target_converter/Target_converter.py:27 | rotation distributes over vector sums |
| Quaternions.RotateSub | Target_converter/Target_converter.py:29 | rotation distributes over vector differences |
| Quaternions.RotateCompose | Target_converter/Target_converter.py:34 | rotating by a product is rotating by the right factor, then by the left |
| Quaternions.RotateNeg | Target_converter/Target_converter.py:34 | `q` and `−q` rotate every vector alike |
| Quaternions.RotateOne | Target_converter/Target_converter.py:27 | the unit quaternion leaves every vector in place |
| Quaternions.RotateInvOne | Target_converter/Target_converter.py:29 | so does the inverse of the unit quaternion |
| Quaternions.RotateUndo | Target_converter/Target_converter.py:29 | for a unit `q`, rotating by `q` and by its conjugate or inverse undo each other, in either order |
| Quaternions.InvCancel | Target_converter/Target_converter.py:34 | for a unit `b`, `b ⊗ (b⁻¹ ⊗ x)` and `b⁻¹ ⊗ (b ⊗ x)` are `−x` |
| Robtargets.Wobj0IsHalfTurn | Target_converter/Target_converter.py:162-164 | the default frame's quaternion `[1,0,0,0]`, read scalar-last, maps `(x,y,z)` to `(x,−y,−z)`; `Wobj0` is not the identity frame |
| Robtargets.WorldLocal | Target_converter/Target_converter.py:27-29 | for a unit frame, taking a point into world coordinates and back out (and the reverse) returns it |
| Robtargets.WorldLocalOri | Target_converter/Target_converter.py:34 | for a unit frame, taking an orientation into the world and back (and the reverse) returns its negation |
| Robtargets.FromVec | Target_converter/Target_converter.py:39 | `tolist()` of a position has three entries that read back as the vector |
| Robtargets.FromQuat | Target_converter/Target_converter.py:40 | `tolist()` of a quaternion has four entries that read back as the quaternion |
| Robtargets.ExtTextSentinel | Target_converter/Target_converter.py:51 | an external axis prints as `9E+09` exactly when `abs(x − 9e9) < 1e-6`, and otherwise as its two-decimal text |
| Robtargets.Format | Target_converter/Target_converter.py:47-54 | the text opens with `[[` and closes with `]]` |
| Robtargets.FormatParse | Target_converter/Target_converter.py:47-54 | the four groups split back apart; each nonempty group splits on `", "` into its entries; every group has one entry per input value; each entry reads back as the printed value of its input |
| Robtargets.FormatGroups | Target_converter/Target_converter.py:53-54 | the text inside the outer brackets splits on `"], ["` into exactly the four group texts |
| Robtargets.BracketGroups | Target_converter/Target_converter.py:53-54 | any four `]`-free groups written as `[[a], [b], [c], [d]]` split back into those groups |
| Robtargets.GroupSplit | Target_converter/Target_converter.py:48-54 | a nonempty group splits on `", "` into its entries |
| Robtargets.FormatOneLine | Target_converter/Target_converter.py:47-54 | the text holds no line break |
| Robtargets.EntriesParse | Target_converter/Target_converter.py:48-51 | each entry reads back through `float`/`int`: positions to two decimals, quaternions to six, configurations exactly, external axes within 0.005 |
| Robtargets.ExtTextParse | Target_converter/Target_converter.py:51 | an external-axis text reads back within 0.005 of the value, sentinel or not |
| Robtargets.SentinelParse | Target_converter/Target_converter.py:51 | `float("9E+09")` is `9e9` |
| TargetConverter.TransformRobtarget | Target_converter/Target_converter.py:12-45 | defined exactly when the lists have the right lengths and no quaternion is zero; configuration and external axes pass through unchanged; position and orientation are recomputed with three and four entries |
| TargetConverter.SameWorldPose | Target_converter/Target_converter.py:27-34 | the converted target, seen through the output frame, is the original seen through the input frame, in position and in orientation (up to sign) |
| TargetConverter.TransformIdentity | Target_converter/Target_converter.py:27-34 | converting a frame into itself returns the position and the negated quaternion, which rotates every vector as the original does |
| TargetConverter.TransformRoundTrip | Target_converter/Target_converter.py:27-34 | converting from `a` to `b` and back restores the target exactly |
| TargetConverter.TransformCompose | Target_converter/Target_converter.py:27-34 | `a→b` then `b→c` gives the position of `a→c` and the negation of its quaternion |
| TargetConverterUi.MatchHead | Target_converter/Target_converter.py:366 | a match is a well-shaped head `\w+\s+robtarget\s+(\w+)\s*:=` followed by the rest of the line |
| TargetConverterUi.MatchHeadComplete | Target_converter/Target_converter.py:366 | every line that starts with a well-shaped head is matched, with exactly that head |
| TargetConverterUi.LastClose | Target_converter/Target_converter.py:437 | the greedy `.*`: the last `]` before the bound that is followed by optional spaces and `;`, or none at all |
| TargetConverterUi.MatchDeclaration | Target_converter/Target_converter.py:437 | a match has word-character scope and name and a body that opens with `[` and closes with `]` |
| TargetConverterUi.LastCloseAt | Target_converter/Target_converter.py:437 | the greedy `.*` stops at a qualifying `]` when no later `]` is followed by optional spaces and `;` |
| TargetConverterUi.MatchDeclarationComplete | Target_converter/Target_converter.py:437 | every line made of a well-shaped head, whitespace, a bracketed body ending at the last qualifying `]`, whitespace, `;` and any rest is matched, with exactly its scope, name and body |
| TargetConverterUi.MatchDeclarationSound | Target_converter/Target_converter.py:437 | every match comes from exactly such parts |
| TargetConverterUi.BracketedGroups | Target_converter/Target_converter.py:444 | `re.findall` of a bracketed group pattern scans left to right; every group it returns is admitted by the pattern |
| TargetConverterUi.NumberGroups | Target_converter/Target_converter.py:444 | every group `re.findall` returns is a comma-separated list of numbers of the pattern |
| TargetConverterUi.NumberNoBracket | Target_converter/Target_converter.py:444 | a number of the pattern holds no `]` |
| TargetConverterUi.UnsignedNoBracket | Target_converter/Target_converter.py:444 | a mantissa, with or without an exponent mark and exponent, holds no `]` |
| TargetConverterUi.NumberListNoBracket | Target_converter/Target_converter.py:444 | nor does a list of them, so a group ends at the first `]` |
| TargetConverterUi.OpenNotNumberList | Target_converter/Target_converter.py:444 | a text opening with `[` is no number list |
| TargetConverterUi.FirstEntryOpens | Target_converter/Target_converter.py:444 | the first comma-separated entry of a text opening with `[` opens with `[` |
| TargetConverterUi.OpenNotNumber | Target_converter/Target_converter.py:444 | a text opening with `[` is no number of the pattern |
| TargetConverterUi.OpenNotMantissa | Target_converter/Target_converter.py:444 | nor is it a mantissa of the pattern |
| TargetConverterUi.GroupStep | Target_converter/Target_converter.py:444 | an admitted bracketed group at the front is returned first, and the scan resumes after its `]` |
| TargetConverterUi.OpenSkip | Target_converter/Target_converter.py:444 | a `[` followed by another `[` starts no group when no admitted group opens with `[` |
| TargetConverterUi.CommaSkip | Target_converter/Target_converter.py:444 | a `,` between groups starts none |
| TargetConverterUi.FindallFrom | Target_converter/Target_converter.py:444 | on `[g0],[g1],…]` with admitted groups holding no `]`, the scan returns exactly `g0, g1, …`, in order |
| TargetConverterUi.Findall | Target_converter/Target_converter.py:444-446 | on `[[g0],[g1],…]` with number lists `gi`, `re.findall` returns exactly `[g0, g1, …]`; with four lists the four-group check passes |
| TargetConverterUi.ParseBody | Target_converter/Target_converter.py:444-453 | succeeds exactly when there are four groups and every entry parses (`float`, `float`, `int`, the sentinel rule); the lists hold each group's entries as read, in order |
| TargetConverterUi.NumberParses | Target_converter/Target_converter.py:448 | every number the group pattern admits is accepted by `float` |
| TargetConverterUi.Conversion | Target_converter/Target_converter.py:437-461 | a successful line is a declaration the pattern matched, with word-character scope and name |
| TargetConverterUi.Render | Target_converter/Target_converter.py:462-483 | the line written starts with `!` exactly when the line failed |
| TargetConverterUi.Conversions | Target_converter/Target_converter.py:434-483 | one outcome per input line |
| TargetConverterUi.DisplayedName | Target_converter/Target_converter.py:496-498 | a converted line is listed under its name, or under `robtarget` when its scope ends in `robtarget` |
| TargetConverterUi.SearchSkips | Target_converter/Target_converter.py:496 | the search passes over positions where the pattern does not match |
| TargetConverterUi.NoNameInScope | Target_converter/Target_converter.py:496 | inside the scope word the search can match only where `robtarget` ends the scope |
| TargetConverterUi.KeywordAfterScope | Target_converter/Target_converter.py:496 | a scope ending in `robtarget` makes the search capture the keyword |
| TargetConverterUi.NameAfterKeyword | Target_converter/Target_converter.py:496 | after ` robtarget ` the search captures the target name |
| TargetConverterUi.RenderShown | Target_converter/Target_converter.py:492-498 | each written line yields exactly one list entry |
| TargetConverterUi.ResultsOnePerLine | Target_converter/Target_converter.py:432-498 | the result list is the header and then one entry per input line, in order |
| TargetConverterUi.RenderedShown | Target_converter/Target_converter.py:490-498 | the header and the written lines list as the header and one entry per line |
| TargetConverterUi.LineName | Target_converter/Target_converter.py:366-368 | a line gives at most one name |
| TargetConverterUi.LineNameOf | Target_converter/Target_converter.py:365-368 | a line that is a declaration head once stripped gives its name |
| TargetConverterUi.DeclaredNames | Target_converter/Target_converter.py:363-369 | lines that all declare targets give their names, one per line, in order |
| TargetConverterUi.RegisteredOverwrites | Target_converter/Target_converter.py:371-375 | a re-added name takes the last frame given for it |
| TargetConverterUi.RegisteredKeeps | Target_converter/Target_converter.py:371-375 | names not given keep their frames, and no other name appears |
| TargetConverterUi.AppendMissingValid | Target_converter/Target_converter.py:376-381 | the lists grow only at the end, never repeat a name, and list exactly the registered names |
| TargetConverterUi.TargetConverterApp.constructor | Target_converter/Target_converter.py:162-343 | the window opens with only `Wobj0` registered and listed, and with empty text, targets and results |
| TargetConverterUi.TargetConverterApp.ExtractTargetNames | Target_converter/Target_converter.py:363-369 | the names of the text's lines, in line order |
| TargetConverterUi.TargetConverterApp.UpdateInput | Target_converter/Target_converter.py:357-361 | the text is kept and the target list holds its names; nothing else changes |
| TargetConverterUi.TargetConverterApp.AddCoordinateSystems | Target_converter/Target_converter.py:371-381 | each frame is stored under its name, overwriting; a name is appended to the list and the combo boxes only when missing; the lists stay duplicate-free |
| TargetConverterUi.TargetConverterApp.ConvertTargets | Target_converter/Target_converter.py:420-485 | with an unregistered name nothing changes; otherwise the header and one line per input line are written, and the results are listed |
| TargetConverterUi.TargetConverterApp.ConvertLines | Target_converter/Target_converter.py:432-483 | the header, then each line's converted declaration or error line, in order |
| TargetConverterUi.TargetConverterApp.DisplayResults | Target_converter/Target_converter.py:490-498 | the result list is rebuilt from the written lines; nothing else changes |
| TargetConverterUi.TargetConverterApp.ListedItems | Target_converter/Target_converter.py:491-498 | the entries of the written lines, in order |
| GRoboticsConverter.QuaternionToRotationMatrix | GRobotics/Target_converter.py:16-18 | defined exactly for nonzero quaternions; the matrix applied to any vector rotates it by the quaternion |
| GRoboticsConverter.MatrixRotateAll | GRobotics/Target_converter.py:16-18 | scipy's rotation matrix rotates every vector as the quaternion does |
| GRoboticsConverter.ApplyTransformation | GRobotics/Target_converter.py:20-27 | fails exactly on a zero quaternion; otherwise gives the position `R_cs p + t` and the orientation `q_cs ⊗ q` |
| GRoboticsConverter.InvertTransformation | GRobotics/Target_converter.py:29-34 | fails exactly on a zero quaternion; otherwise gives `(−R(q⁻¹) t, q⁻¹)` |
| GRoboticsConverter.InvertUndoesApply | GRobotics/Target_converter.py:20-34 | applying a unit pose and then its inverse, or the inverse and then the pose, restores the position and gives the negated orientation |
| GRoboticsConverter.ApplyThenInvertPos | GRobotics/Target_converter.py:20-34 | position part of the above, applied then inverted |
| GRoboticsConverter.InvertThenApplyPos | GRobotics/Target_converter.py:20-34 | position part of the above, inverted then applied |
| GRoboticsConverter.TransformRobtarget | GRobotics/Target_converter.py:36-64 | defined exactly when the lists have the right lengths and no quaternion is zero; configuration and external axes pass through unchanged |
| GRoboticsConverter.TransformMeaning | GRobotics/Target_converter.py:48-55 | the result is the input frame's local pose carried into the output frame, `R_out R_in⁻¹ (p − t_in) + t_out` and `q_out ⊗ q_in⁻¹ ⊗ q` |
| GRoboticsConverter.TransformIdentity | GRobotics/Target_converter.py:48-55 | converting a frame into itself returns the position and the negated quaternion |
| GRoboticsConverter.TransformRoundTrip | GRobotics/Target_converter.py:48-55 | converting from `a` to `b` and back restores the target exactly |
| GRoboticsConverter.RoundTripPose | GRobotics/Target_converter.py:48-55 | the pose form of the round trip |
| GRoboticsConverter.TransformCompose | GRobotics/Target_converter.py:48-55 | `a→b` then `b→c` gives the position of `a→c` and the negation of its quaternion |
| GRoboticsConverter.ComposePose | GRobotics/Target_converter.py:48-55 | the pose form of the composition |
| GRoboticsConverter.SwappedCallAgreesOnIdentity | GRobotics/Target_converter.py:391-393 | with either frame the identity, the swapped call gives exactly the stand-alone edition's result |
| GRoboticsConverter.SwappedCallAgrees | GRobotics/Target_converter.py:391-393 | the swapped call agrees with the stand-alone edition whenever the two frames' maps commute on the target |
| GRoboticsConverter.OrientationGrouping | Target_converter/Target_converter.py:34 | the stand-alone orientation is the input frame's world orientation taken into the output frame |
| GRoboticsConverter.SwappedPosition | GRobotics/Target_converter.py:391-393 | with either frame the identity, the two position maps commute |
| GRoboticsConverter.SwappedOrientation | GRobotics/Target_converter.py:391-393 | with either frame the identity, the two orientation maps commute |
| GRoboticsConverter.HalfTurnConverted | Target_converter/Target_converter.py:27-29 | the stand-alone edition sends the origin of a unit shift along x, taken into a half turn about z, to `(−1,0,0)` |
| GRoboticsConverter.HalfTurnSwapped | GRobotics/Target_converter.py:391-393 | the swapped call sends the same origin to `(1,0,0)`, so the editions differ in general |
| GRoboticsConverter.EditionsDiffer | GRobotics/Target_converter.py:391-393 | a robtarget at the origin, converted from the x shift to the z half turn, gets position `[1,0,0]` from the swapped call and `[-1,0,0]` from the stand-alone `transform_robtarget` |
| GRoboticsConverter.SwappedOrigin | GRobotics/Target_converter.py:36-64 | the swapped call's position list for that robtarget is `[1,0,0]` |
| GRoboticsConverter.ConvertedOrigin | Target_converter/Target_converter.py:12-45 | the stand-alone position list for it is `[-1,0,0]` |
| GRoboticsConverter.PositionOf | GRobotics/Target_converter.py:36-64 | the position list of a converted robtarget is the three coordinates of the composed map |
| GRoboticsParse.LiteralIgnoringCase | GRobotics/Target_converter.py:344 | a match is the keyword in any letter case, followed by the rest |
| GRoboticsParse.LiteralIgnoringCaseExact | GRobotics/Target_converter.py:344 | the keyword in any letter case is matched |
| GRoboticsParse.OptionalKeyword | GRobotics/Target_converter.py:344 | the optional group `(kw\s+)?` is empty or the keyword with its whitespace, never followed by more whitespace |
| GRoboticsParse.OptionalKeywordPresent | GRobotics/Target_converter.py:344 | a present group is found again |
| GRoboticsParse.OptionalKeywordAbsent | GRobotics/Target_converter.py:344 | an absent group stays absent |
| GRoboticsParse.MatchData | GRobotics/Target_converter.py:344 | a match is `[[pos],[ori],[config],[ext]]` over the allowed characters, then the rest |
| GRoboticsParse.MatchDataComplete | GRobotics/Target_converter.py:344 | every well-shaped data text is matched with exactly its groups |
| GRoboticsParse.MatchTarget | GRobotics/Target_converter.py:344 | a match is a well-shaped declaration, `;`, then the rest |
| GRoboticsParse.MatchDeclared | GRobotics/Target_converter.py:344 | the pattern from `robtarget` on: keyword in any case, word-character name, data, `;` |
| GRoboticsParse.MatchDeclaredComplete | GRobotics/Target_converter.py:344 | every well-shaped tail is matched with exactly its parts |
| GRoboticsParse.MatchTargetComplete | GRobotics/Target_converter.py:344 | every line starting with a well-shaped declaration is matched with exactly its parts |
| GRoboticsParse.ScopeValues | GRobotics/Target_converter.py:346-351 | the scope is `LOCAL CONST`, `LOCAL`, `CONST` or empty, as the optional groups matched |
| GRoboticsParse.GroupsParse | GRobotics/Target_converter.py:367-372 | succeeds exactly when every comma-separated entry of every group parses, so it fails as soon as one entry of one group does not; each list holds its group's entries read by `float`, `float`, `int`, `float`, one per entry, in order |
| GRoboticsParse.ParseRobtargetData | GRobotics/Target_converter.py:364-372 | succeeds only when stripping `[]` and splitting on `],[` gives at least four parts |
| GRoboticsParse.DataParses | GRobotics/Target_converter.py:364-372 | on data the pattern accepted, the four parts are exactly the matched groups |
| GRoboticsParse.StripBrackets | GRobotics/Target_converter.py:366 | `strip('[]')` removes exactly the two outer brackets on each side |
| GRoboticsParse.StripCharsAround | GRobotics/Target_converter.py:366 | stripping a character set removes exactly the surrounding characters from that set |
| GRoboticsParse.ReadingMeaning | GRobotics/Target_converter.py:342-359 | a declared line is read with its name, its scope and its four parsed groups |
| GRoboticsParse.LoadOk | GRobotics/Target_converter.py:340-361 | loading reaches the end exactly when every declaration's data parses |
| GRoboticsParse.LoadListsMatches | GRobotics/Target_converter.py:355 | a complete load lists every declared name in line order, repeats included |
| GRoboticsParse.LoadFailsAt | GRobotics/Target_converter.py:355-358 | at the first unparsable line, loading stops with that name listed and its data not stored |
| GRoboticsParse.LoadStopped | GRobotics/Target_converter.py:340-361 | once loading has stopped, later lines change nothing |
| GRoboticsParse.LoadLastWins | GRobotics/Target_converter.py:356-359 | of several declarations of a name, the last one's entry is kept |
| GRoboticsParse.LoadDataListed | GRobotics/Target_converter.py:355-359 | every stored name is listed; after a complete load every listed name is stored |
| GRoboticsConverterUi.AddedKeeps | GRobotics/Target_converter.py:331-336 | a registered frame is never replaced |
| GRoboticsConverterUi.AddedFirst | GRobotics/Target_converter.py:331-334 | a new name gets the frame it is first given with |
| GRoboticsConverterUi.AddedAbsent | GRobotics/Target_converter.py:330-334 | names never given stay unregistered |
| GRoboticsConverterUi.AddedNamesValid | GRobotics/Target_converter.py:330-334 | the combo boxes list each registered name once, new names appended in order |
| GRoboticsConverterUi.ResultsOnePerTarget | GRobotics/Target_converter.py:386-404 | one result per listed target, each decided by that target alone |
| GRoboticsConverterUi.ConvertedDataMeaning | GRobotics/Target_converter.py:388-397 | `converted_data` holds exactly the listed targets that converted, each with its scope and converted lists |
| GRoboticsConverterUi.ConvertedOrderValid | GRobotics/Target_converter.py:394-397 | the dictionary's insertion order lists each stored name once |
| GRoboticsConverterUi.CopiedLinesSplit | GRobotics/Target_converter.py:424-426 | the clipboard text splits back into one line per converted target |
| GRoboticsConverterUi.CopyLinesOneLine | GRobotics/Target_converter.py:416-422 | one line per converted target, none holding a line break |
| GRoboticsConverterUi.CopyLineOneLine | GRobotics/Target_converter.py:419-422 | a scope and a name without line breaks give a single line |
| GRoboticsConverterUi.TargetConverterApp.constructor | GRobotics/Target_converter.py:194-215 | the window opens with only `Wobj0` registered and in both combo boxes, and with empty targets and results |
| GRoboticsConverterUi.TargetConverterApp.AddCoordinateSystems | GRobotics/Target_converter.py:328-336 | only new names are registered and appended to both combo boxes in lockstep; nothing else changes |
| GRoboticsConverterUi.TargetConverterApp.UpdateInput | GRobotics/Target_converter.py:338-362 | the list and the dictionary are rebuilt from the text's lines, and the load reports whether it ran to the end |
| GRoboticsConverterUi.TargetConverterApp.LoadLines | GRobotics/Target_converter.py:342-359 | the loop computes the load of the lines |
| GRoboticsConverterUi.TargetConverterApp.ConvertTargets | GRobotics/Target_converter.py:374-412 | equal names change nothing; otherwise the results (or the "no valid" line), the converted data and its order are those of the listed targets |
| GRoboticsConverterUi.TargetConverterApp.ConvertAll | GRobotics/Target_converter.py:386-404 | the loop computes the results, the converted data and its insertion order |
| GRoboticsConverterUi.TargetConverterApp.CopyResults | GRobotics/Target_converter.py:414-429 | nothing when no target converted; otherwise one line per converted target in insertion order, scope first when present |
| MovParser.MoveLinesInOrder | GRobotics/Robot_Mov_Parser.py:175-182 | exactly the lines holding `MoveJ`/`MoveL`/`MoveC` as a word in any case are kept, stripped, in program order |
| MovParser.MatchNum | GRobotics/Robot_Mov_Parser.py:186 | a numeral `[-+]?\d+\.?\d*` (integers: `[-+]?\d+`) is read greedily off the front |
| MovParser.MatchNumExact | GRobotics/Robot_Mov_Parser.py:186 | a numeral followed by `,` or `]` is read whole |
| MovParser.MatchList | GRobotics/Robot_Mov_Parser.py:186 | a list match is `count` well-shaped numerals separated by commas |
| MovParser.MatchListExact | GRobotics/Robot_Mov_Parser.py:186 | every such list followed by `]` is matched with exactly its numerals |
| MovParser.MatchCoords | GRobotics/Robot_Mov_Parser.py:186 | a match is a target literal `[[3],[4],[4 ints],[six 9E+09]]`, then the rest |
| MovParser.MatchCoordsExact | GRobotics/Robot_Mov_Parser.py:186 | every target literal is matched with exactly its groups |
| MovParser.MatchCoordsBracket | GRobotics/Robot_Mov_Parser.py:186 | nothing matches where no `[` opens the text |
| MovParser.FirstMatch | GRobotics/Robot_Mov_Parser.py:187 | a found position lies in the text and the pattern matches there |
| MovParser.FirstMatchSkips | GRobotics/Robot_Mov_Parser.py:187 | the search skips only positions where the pattern fails, and fails only when it fails everywhere |
| MovParser.FirstMatchAt | GRobotics/Robot_Mov_Parser.py:187 | the search stops at the first position that matches |
| MovParser.ExtractCoordinates | GRobotics/Robot_Mov_Parser.py:184-190 | a returned text is nonempty |
| MovParser.ExtractSound | GRobotics/Robot_Mov_Parser.py:184-190 | a returned text occurs in the line inside brackets and ends with six `9E+09` |
| MovParser.ExtractFinds | GRobotics/Robot_Mov_Parser.py:184-190 | a line whose first `[` opens a target literal returns that literal without its outer brackets |
| MovParser.FirstsMeaning | GRobotics/Robot_Mov_Parser.py:158-163 | the distinct texts are listed once each, and nothing else is |
| MovParser.FirstsPrefix | GRobotics/Robot_Mov_Parser.py:158-163 | the list only grows at the end |
| MovParser.NamesKeys | GRobotics/Robot_Mov_Parser.py:205 | only the named texts are mapped |
| MovParser.NameAt | GRobotics/Robot_Mov_Parser.py:200-205 | the `k`-th distinct text maps to the `k`-th name |
| MovParser.DeclarationAt | GRobotics/Robot_Mov_Parser.py:198-207 | the `k`-th declaration declares the `k`-th text under the `k`-th name, scope and type |
| MovParser.NewTarget | GRobotics/Robot_Mov_Parser.py:198-205 | a new text keeps counter, map, order and declarations in step with the distinct texts |
| MovParser.KnownTarget | GRobotics/Robot_Mov_Parser.py:195-196 | a text met before adds nothing to the distinct texts |
| MovParser.NamesIncrease | GRobotics/Robot_Mov_Parser.py:201-202 | names are distinct and their numbers strictly increase by position |
| MovParser.NameNumber | GRobotics/Robot_Mov_Parser.py:200-202 | the `k`-th name is the base followed by the number `10 + 10k` |
| MovParser.NameHasWord | GRobotics/Robot_Mov_Parser.py:260 | every generated name has a last word |
| MovParser.FirstModule | GRobotics/Robot_Mov_Parser.py:248 | the first line whose stripped text starts with `MODULE`, or none when no line does |
| MovParser.Inserted | GRobotics/Robot_Mov_Parser.py:248-252 | the block sits right after the first `MODULE` line, or first; all other lines keep their order |
| MovParser.LastContained | GRobotics/Robot_Mov_Parser.py:257-258 | the last key the line contains, or none |
| MovParser.PickStep | GRobotics/Robot_Mov_Parser.py:257-261 | a later key replaces the earlier choice whenever the line contains it |
| MovParser.EditRewrites | GRobotics/Robot_Mov_Parser.py:255-261 | a move line `before + "[c]" + after` whose only mapped text is `c` and whose first and only `[c]` follows `before` becomes `before + name + after`, with the last word of `c`'s name |
| MovParser.MovementParser.constructor | GRobotics/Robot_Mov_Parser.py:13-20 | GLOBAL, CONST, base `p_`, counter 10, no declarations and an empty map |
| MovParser.MovementParser.IdentifyMoveInstructions | GRobotics/Robot_Mov_Parser.py:175-182 | the loop returns the stripped move lines in order |
| MovParser.MovementParser.GenerateVariable | GRobotics/Robot_Mov_Parser.py:192-207 | a mapped text gives nothing and changes nothing; a new text gives the declaration under the current counter, the counter steps by 10, and the map records the name |
| MovParser.MovementParser.ParseMovements | GRobotics/Robot_Mov_Parser.py:152-163 | afterwards the map, the declarations and the counter `10 + 10n` reflect the `n` distinct literals of the move lines, in first-occurrence order |
| MovParser.MovementParser.ParseInstructions | GRobotics/Robot_Mov_Parser.py:154-163 | the reset and loop give the same state for a list of move instructions |
| MovParser.MovementParser.ParseInstruction | GRobotics/Robot_Mov_Parser.py:158-163 | a new literal is named, declared and mapped with the counter, which steps by 10; otherwise nothing changes |
| MovParser.MovementParser.ModifyLines | GRobotics/Robot_Mov_Parser.py:226-261 | nothing without declarations; otherwise the lines with the block inserted, each line edited on its own |
| MovParser.MovementParser.EditLine | GRobotics/Robot_Mov_Parser.py:255-261 | a move line gets the literal of the last mapped text it contains replaced by that text's name; other lines are unchanged |
| PyStrings.Upper | GRobotics/Robot_Mov_Parser.py:256 | same length, each letter upper-cased |
| PyStrings.FindFrom | GRobotics/Robot_Mov_Parser.py:258 | the leftmost occurrence at or after the start, or none at all |
| PyStrings.ContainsIff | GRobotics/Robot_Mov_Parser.py:258 | `pat in s` holds exactly when the pattern occurs somewhere |
| PyStrings.Split | Target_converter/Target_converter.py:365 | at least one piece |
| PyStrings.JoinSplit | Target_converter/Target_converter.py:365 | joining the pieces of a split gives the text back |
| PyStrings.SplitJoin | GRobotics/Target_converter.py:425 | splitting a join gives the pieces back when no piece holds the separator |
| PyStrings.Strip | Target_converter/Target_converter.py:366 | the result has no whitespace at either end |
| PyStrings.StripSlice | Target_converter/Target_converter.py:366 | `strip` keeps a slice of its input and drops only whitespace |
| PyStrings.StripChars | GRobotics/Target_converter.py:366 | `strip(chars)` never lengthens the text |
| PyStrings.Words | GRobotics/Robot_Mov_Parser.py:260 | the words of `split()` are nonempty and whitespace-free |
| PyStrings.WordsOfWord | GRobotics/Robot_Mov_Parser.py:260 | a text without whitespace is its own single word |
| PyStrings.ReplaceAbsent | GRobotics/Robot_Mov_Parser.py:261 | `replace` changes nothing when the pattern does not occur |
| PyStrings.ReplaceOnce | GRobotics/Robot_Mov_Parser.py:261 | `replace` of a pattern that occurs once rewrites exactly that occurrence |
| PyNumbers.IntToString | GRobotics/Robot_Mov_Parser.py:201 | `str(i)` is a nonempty numeral |
| PyNumbers.IntRoundTrip | Target_converter/Target_converter.py:50 | `int(str(i)) == i` |
| PyNumbers.IntToStringInjective | GRobotics/Robot_Mov_Parser.py:201 | different counters print differently |
| PyNumbers.ParseAll | Target_converter/Target_converter.py:448-451 | `list(map(f, xs))` succeeds exactly when every entry parses, and gives the parsed entries in order |
| PyNumbers.RoundHalfEven | Target_converter/Target_converter.py:48 | the rounded count is within one half of the value |
| PyNumbers.FixedPoint | Target_converter/Target_converter.py:48 | `f"{x:.{d}f}"` has `d` digits after the point and a minus sign exactly for negative `x` |
| PyNumbers.FixedValueClose | Target_converter/Target_converter.py:48-49 | the printed value is within half a unit of the last digit |
| PyNumbers.FixedPointParse | Target_converter/Target_converter.py:48-49 | `float` reads the printed text back as exactly the printed value |
| PyNumbers.TwoDecimalsClose | Target_converter/Target_converter.py:51 | two decimals read back within 0.005 of the value |

## Left out

- The Qt windows: layouts, style sheets, themes, the dialogs that collect text, and showing or hiding windows. The dialog's text reaches the model as the argument of `update_input` and of `add_coordinate_systems`.
- The parsing of pasted `wobjdata` text in `CoordinateSystemInputWindow.add_coordinate_systems`. That dialog is not part of this model; frames reach the windows as name and frame pairs.
- File I/O: choosing and reading the module, `shutil.copy2`, writing the modified file, and `save_file`. `MovementParser.ModifyLines` takes the read lines and returns the lines to write. The `file_path` guards of `parse_movements` and `modify_file` are not modelled.
- The clipboard and console output: `pyperclip.copy`, every `print`, and the message boxes. `CopyResults` returns the clipboard text.
- The second `transform_robtarget` call in the stand-alone `convert_targets`. It only feeds debug prints.
- Floating point. Values are exact reals, so rounding in the rotations is not modelled.
- scipy's normalisation of non-unit quaternions. The identity, round-trip and composition laws require unit quaternions; a zero quaternion is modelled as scipy's error.
- The full literal grammars of `float()` and `int()`. The model accepts signs, digits, a point and an exponent, the only characters the regular expressions let through.
- `\w`, `\d`, `re.IGNORECASE` and `str.upper` are modelled on ASCII letters and digits. `\s`, `strip()` and `split()` use the full `str.isspace` set (PyStrings.IsSpace).
- PyNumbers.FixedPoint: rounds the exact real half to even. It does not model the binary double that Python rounds.
- TargetConverterUi.TargetConverterApp.ConvertTargets: "no such frame" is modelled as a name missing from the registry. The code's `not input_coord_system` test also fires on an empty dictionary, which the registry never holds.
- GRoboticsConverterUi.TargetConverterApp.UpdateInput: the exception a failed parse raises is modelled as stopping the loop and returning `false`. The name already added to the list stays, as in the code.
- MovParser.LastWord: the `""` fallback for a name without words. `MovParser.NameHasWord` shows that every generated name has a word.
- The object identity of the list widgets and dictionaries. They are modelled as sequence and map values held in fields, so aliasing is not captured.
