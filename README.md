# Field markings of the SSL vision field model

This project models the field-markings bookkeeping of `RoboCupField` in
`src/shared/util/field.cpp`. The field keeps two collections of marking
records, lines and circular arcs. Each record is bound to a list node in
the settings tree ("Field Lines" or "Field Arcs"). That node holds the
record's leaves: Name, Type, the coordinates and the thickness. The
manager keeps the records and the tree nodes in step:

- the default markings are regenerated from the field's scalar parameters;
- the collections are grown or shrunk to a requested count;
- after the tree is read back from a file, unknown nodes are adopted as
  records, and malformed nodes are removed;
- the geometry message is rendered from the records.

The files hold the following modules:

- `VarTree`: the settings-tree items the records are made of.
- `Adoption`: the schema check of `FromVarList`, over the child names.
- `FieldMarkings`: the two record classes.
- `Reconcile`: what a read-back pass does, over node identities.
- `Geometry`: the scalar parameters, record values and default markings.
- `ShapeTypes`: the type-string lookup.
- `Naming`: the "Line i" and "Arc i" names.
- `WireFormat`: the rendered message.
- `RoboCup`: the manager class.

The manager is a class with `modifies` clauses. Its loops are proved
against the functions of `Reconcile` and `Geometry`. The schema check, the
lookup and the geometry are functions.

## Model

| member | source | states |
|---|---|---|
| Adoption.LastIndexOf | src/shared/util/field.cpp:38-58 | A later child with the same name overrides an earlier one: the result is the last position of the name, or none when the name is absent. |
| Adoption.FieldIndex | src/shared/util/field.cpp:40-57 | The if/else chain selects the first field carrying the child's name. There is no field exactly when the name is outside the schema. |
| Adoption.Conforms | src/shared/util/field.cpp:27-30 | The count check and the else branch together: exactly as many children as the schema has fields, each named after one of them. |
| Adoption.Slots | src/shared/util/field.cpp:38-58 | For each field, the child the scan leaves in it: the last child of that field's name, or none. |
| Adoption.AdoptAsWritten | src/shared/util/field.cpp:25-60 | The decision FromVarList makes as written: the slots when the children conform, no record otherwise. A field no child names is left unset. See "## Findings". |
| Adoption.Adopt | src/shared/util/field.cpp:25-60 | The corrected decision the rest of the model uses: as written, and also refusing a node that leaves a field without a child. See "## Findings". |
| Adoption.AdoptFillsEveryField | src/shared/util/field.cpp:25-60 | An adopted node supplies every field, each from a child named after that field. |
| Adoption.AdoptGuardsAsWritten | src/shared/util/field.cpp:25-60 | The corrected decision equals the written one, except that it refuses exactly the nodes the written one accepts with some field unset. |
| Adoption.ArcWithoutTypeAccepted | src/shared/util/field.cpp:195-231 | As written, an arc node with two Name children and no Type child is accepted with its type slot unset. The corrected decision refuses it. |
| Adoption.AcceptedByMembers | src/shared/util/field.cpp:625-641 | A node is among those the pass accepts iff one of its occurrences has children that pass the schema. |
| Adoption.AcceptedByAt | src/shared/util/field.cpp:634 | When all occurrences of a node have the same children, acceptance is decided by any one of them. |
| Adoption.ReadoptDistinct | src/shared/util/field.cpp:25-60 | A node whose children carry the schema's names, each once, is adopted with field k taken from child k. |
| Adoption.ReadoptNewLine | src/shared/util/field.cpp:113-157 | The node of a newly built line is adopted again, each field from the leaf it was built with. |
| Adoption.ReadoptArcWithValues | src/shared/util/field.cpp:255-278 | The node of an arc built from values is adopted again. |
| Adoption.NamedArcNotReadoptable | src/shared/util/field.cpp:199 | An arc built by the name-only constructor can never be adopted: its type leaf is named "type", not "Type". |
| Adoption.DuplicateNameAccepted | src/shared/util/field.cpp:38-59 | As written, a repeated child name is not rejected: the later child wins and the displaced Type field stays unset. The corrected decision refuses the node. |
| Adoption.MissingFieldRejected | src/shared/util/field.cpp:27-30 | A line node with six children is rejected. |
| Adoption.UnexpectedNameRejected | src/shared/util/field.cpp:54-57 | A child name outside the line schema rejects the node, even when the child count is right. |
| FieldMarkings.AdoptableIff | src/shared/util/field.cpp:634 | A child is adoptable iff it is among the children and its own children pass the schema. |
| FieldMarkings.TakeAt | src/shared/util/field.cpp:40-53 | Taking a leaf as the field of a name that no other field shares replaces exactly that field. |
| FieldMarkings.SlotsStep | src/shared/util/field.cpp:38-58 | Visiting one more child makes it the supplier of the field of its name; the other fields stay. |
| FieldMarkings.AdoptChildren | src/shared/util/field.cpp:25-60 | The scan returns "no record" exactly when the corrected decision refuses the names. Otherwise the fields are the children the slots select, and every one is set. |
| FieldMarkings.AdoptedFieldsSet | src/shared/util/field.cpp:25-60 | Every leaf reference picked for an accepted node is set. |
| FieldMarkings.DetachAll | src/shared/util/field.cpp:163-179 | The listed leaves are removed from the node; the other children stay, in order. |
| FieldMarkings.NewNode | src/shared/util/field.cpp:113-131 | A new list node has one new leaf per name, in order, with the given values. |
| FieldMarkings.FieldLine.Named | src/shared/util/field.cpp:113-131 | The line has new leaves named as the line schema, Type "Undefined" and thickness 10, in a new node named after the marking. |
| FieldMarkings.FieldLine.WithValues | src/shared/util/field.cpp:133-157 | The line has the given values and its type string is its name. |
| FieldMarkings.FieldLine.Copy | src/shared/util/field.cpp:77-95 | The copy has new leaves with the original's values. Its Type value is the leaf name "Type", not the original's type. |
| FieldMarkings.FieldLine.Wrap | src/shared/util/field.cpp:62-75 | The record wraps the given leaves and node and creates nothing. |
| FieldMarkings.FieldLine.FromVarList | src/shared/util/field.cpp:25-60 | The result is null iff the corrected decision refuses the children. Otherwise it is a new record bound to the node: its fields are the adopted children and all are set. |
| FieldMarkings.FieldLine.AdoptedIsComplete | src/shared/util/field.cpp:25-60 | A line adopted from its node holds every leaf. |
| FieldMarkings.FieldLine.Rename | src/shared/util/field.cpp:159-161 | The node takes the current text of the Name leaf. |
| FieldMarkings.FieldLine.Release | src/shared/util/field.cpp:163-179 | Every leaf the record holds is removed from its node; the other children stay, in order. |
| FieldMarkings.FieldCircularArc.Named | src/shared/util/field.cpp:280-300 | The arc has new leaves whose type leaf is named "type", with Type "Undefined" and thickness 10. |
| FieldMarkings.FieldCircularArc.WithValues | src/shared/util/field.cpp:255-278 | The arc has the given values and its type string is its name. |
| FieldMarkings.FieldCircularArc.Copy | src/shared/util/field.cpp:233-253 | The copy has new leaves carrying all the original's values, including its type string. |
| FieldMarkings.FieldCircularArc.Wrap | src/shared/util/field.cpp:223-231 | The record wraps the given leaves and node and creates nothing. The type reference must be set, since the constructor fills its enumeration at 229 and 322-325. |
| FieldMarkings.FieldCircularArc.FromVarList | src/shared/util/field.cpp:181-221 | The result is null iff the corrected decision refuses the children. Otherwise it is a new record bound to the node: its fields are the adopted children and all are set. |
| FieldMarkings.FieldCircularArc.AdoptedIsComplete | src/shared/util/field.cpp:181-221 | An arc adopted from its node holds every leaf. |
| FieldMarkings.FieldCircularArc.Rename | src/shared/util/field.cpp:327-329 | The node takes the current text of the Name leaf. |
| FieldMarkings.FieldCircularArc.Release | src/shared/util/field.cpp:302-320 | Every leaf the record holds is removed from its node; the other children stay, in order. |
| Reconcile.Adopted | src/shared/util/field.cpp:625-641 | The nodes a pass adopts, in child order: a visited child that no record is bound to yet, whose children pass the schema. Its properties are in AdoptedMembers and AdoptedInChildOrder. |
| Reconcile.Dropped | src/shared/util/field.cpp:625-641 | The nodes a pass removes: the children no record is bound to, whose children fail the schema. |
| Reconcile.AdoptedMembers | src/shared/util/field.cpp:625-642 | The adopted nodes are exactly the children that are unbound and accepted, each adopted once. |
| Reconcile.ReconcileStep | src/shared/util/field.cpp:626-641 | One visited child is adopted when it is unbound and accepted, removed when it is unbound and refused, and left alone otherwise. |
| Reconcile.AdoptedInChildOrder | src/shared/util/field.cpp:625-637 | Adoptions happen in child order and are never revised: a shorter visit adopts a prefix. |
| Reconcile.ReconcileCovers | src/shared/util/field.cpp:622-651 | After a pass, every child still in the node is bound to a record. |
| Reconcile.ReconcileFixpoint | src/shared/util/field.cpp:628-632 | A pass over children that are all bound adopts nothing and removes nothing. |
| Reconcile.ReconcileIdempotent | src/shared/util/field.cpp:622-651 | Running the pass again on the tree it left behind changes nothing, whatever the schema accepts on that second pass. |
| Reconcile.ReconcileBalances | src/shared/util/field.cpp:644-648 | With distinct children and records bound to distinct children, records and children are equal in number afterwards. The count check is then silent. |
| Reconcile.VanishedNodeKeepsRecord | src/shared/util/field.cpp:644-648 | A record whose node vanished is kept, so the counts can differ; the check only logs. |
| Seqs.WithoutMembers | src/shared/util/field.cpp:640 | Removing a set of children keeps exactly the children outside the set and never lengthens the list. |
| Seqs.WithoutTwice | src/shared/util/field.cpp:659-663 | Two removals in a row are one removal of the union. |
| Seqs.WithoutSuffix | src/shared/util/field.cpp:659-664 | Removing the distinct suffix of a list leaves its prefix. |
| Naming.NatToString | src/shared/util/field.cpp:668 | The decimal text of a count is non-empty, all digits, and one digit long iff the count is below 10. |
| Naming.NatToStringInjective | src/shared/util/field.cpp:668 | Different counts have different decimal texts. |
| Naming.LineName | src/shared/util/field.cpp:668 | The name of a created line is "Line " followed by at least one decimal digit and nothing else. LineNamesDiffer states that positions map to distinct names. |
| Naming.ArcName | src/shared/util/field.cpp:696 | The name of a created arc is "Arc " followed by at least one decimal digit and nothing else. ArcNamesDiffer states that positions map to distinct names. |
| Naming.LineNamesDiffer | src/shared/util/field.cpp:667-671 | Lines created at different positions get different names. |
| Naming.ArcNamesDiffer | src/shared/util/field.cpp:695-699 | Arcs created at different positions get different names. |
| Naming.FirstLineNames | src/shared/util/field.cpp:668 | The first three created lines are "Line 0", "Line 1" and "Line 2". |
| ShapeTypes.KindName | src/shared/util/field.cpp:418-431 | The name each kind is registered under in the type map (`ShapeTypeMap`). KindNameInjective and ParseKindName state its properties. |
| ShapeTypes.ParseShapeType | src/shared/util/field.cpp:524-530 | A string that resolves to a defined kind is exactly that kind's registered name. |
| ShapeTypes.ParseKindName | src/shared/util/field.cpp:418-431 | Each registered name resolves to its own kind. |
| ShapeTypes.ParseUndefinedIff | src/shared/util/field.cpp:524-530 | A string resolves to Undefined iff no defined kind is registered under it. |
| ShapeTypes.KindNameInjective | src/shared/util/field.cpp:418-431 | No two kinds share a registered name. |
| Geometry.BlankLine | src/shared/util/field.cpp:113-131 | The values of a line made by the name-only constructor: the name, Type "Undefined", zero endpoints and thickness 10. |
| Geometry.BlankArc | src/shared/util/field.cpp:280-300 | The values of an arc made by the name-only constructor: the name, Type "Undefined", zero geometry and thickness 10. |
| Geometry.DefaultLines | src/shared/util/field.cpp:720-745 | There are eleven default lines, or twelve with the centre line. Each is built from explicit values, so its type string is its name, and each has the field's line thickness. |
| Geometry.DefaultArcs | src/shared/util/field.cpp:754-756 | The default arcs: only the centre circle at the origin, over a full turn, 10 thick. DefaultArcResolves states its property. |
| Geometry.InitialDimensions | src/shared/util/field.cpp:334-365 | The initial parameters: the penalty area fits in each half of the field, the line thickness and the centre circle radius are positive and the circle fits the width, the ball and robot radii are the ones passed in, and the local camera count is positive and at most the total. InitialFieldExample gives the concrete lines. |
| Geometry.Marking | src/shared/util/field.cpp:133-157 | A line built from explicit values has the given name and thickness, and its type string is its name. |
| Geometry.DefaultLineOrder | src/shared/util/field.cpp:721-745 | The eleven lines come in the fixed order, and the CenterLine comes last when the flag is set. |
| Geometry.DefaultLineCoordinates | src/shared/util/field.cpp:721-740 | The touch, goal, halfway, penalty and corner segments follow the formulas in L, W, Px and Py. |
| Geometry.DefaultLinesResolve | src/shared/util/field.cpp:721-745 | Every generated line's type resolves to the kind of the same name, never to Undefined. |
| Geometry.DefaultArcResolves | src/shared/util/field.cpp:754 | There is exactly one arc, and its type resolves to CenterCircle. |
| Geometry.DefaultLinesAxisParallel | src/shared/util/field.cpp:721-740 | Every generated line is horizontal or vertical. |
| Geometry.DefaultLinesInsideField | src/shared/util/field.cpp:721-740 | When the penalty area fits its half, every endpoint lies in the field rectangle. |
| Geometry.DefaultLinesMirrorLeftRight | src/shared/util/field.cpp:721-740 | Reflected in the halfway line, each line covers its left/right partner. |
| Geometry.DefaultLinesMirrorTopBottom | src/shared/util/field.cpp:721-740 | Reflected in the centre line, each line covers its top/bottom partner. |
| Geometry.InitialFieldExample | src/shared/util/field.cpp:334-365 | On the initial parameters: the top touch line, the left penalty stretch, one centre line and a centre circle of radius 500. |
| Geometry.Trunc | src/shared/util/field.cpp:535-545 | The cast to int truncates toward zero, from below for non-negative values and from above for negative ones. |
| WireFormat.RenderLine | src/shared/util/field.cpp:550-559 | The entry for one line: its name, the kind its type string resolves to, its endpoints and thickness. RenderDefaultLines and UnregisteredTypeRendersUndefined state its properties. |
| WireFormat.RenderArc | src/shared/util/field.cpp:562-572 | The entry for one arc: its name, its resolved kind, centre, radius, angles and thickness. |
| WireFormat.RenderDefaultLines | src/shared/util/field.cpp:549-560 | The rendered default lines each carry a defined kind whose name is the line's name. |
| WireFormat.UnregisteredTypeRendersUndefined | src/shared/util/field.cpp:524-530 | A line whose type string is not registered, such as a line copy's "Type", renders as Undefined. |
| VarTree.Var.RemoveChildren | src/shared/util/field.cpp:712-717 | Removing each listed child in turn removes all of them; the remaining children stay, in order. |
| RoboCup.NewLines | src/shared/util/field.cpp:721-745 | One new, well-formed line per value, with those values, each in its own new node. |
| RoboCup.RoboCupField.constructor | src/shared/util/field.cpp:331-439 | A new field has the initial parameters and the centre line enabled. Its default lines and its centre circle are generated at once, and both nodes hold exactly their records' nodes. |
| RoboCup.RoboCupField.UpdateFieldLinesAndArcs | src/shared/util/field.cpp:709-763 | Both nodes are emptied, then hold exactly the new records: the default lines and the one centre circle, from the current parameters. The counters equal the record counts. There must be no more children than records. |
| RoboCup.RoboCupField.LoadDefaultLines | src/shared/util/field.cpp:711-745 | The lines node is emptied, then holds exactly the new default line records, in order; the line counter is their number. |
| RoboCup.RoboCupField.LoadDefaultArcs | src/shared/util/field.cpp:747-761 | The arcs node is emptied, then holds exactly one new CenterCircle record at the origin: the circle radius, angles 0 to 2π, thickness 10. |
| RoboCup.RoboCupField.ResizeFieldLines | src/shared/util/field.cpp:653-679 | There are exactly N records afterwards. Shrinking keeps the first N and removes the dropped records' nodes. Growing keeps the old records and appends fresh blank "Line i" records, whose nodes are appended. Resizing to the current count changes nothing. Sync between node and records is preserved. |
| RoboCup.RoboCupField.DropLinesFrom | src/shared/util/field.cpp:658-665 | The first n records are kept, and the nodes of the dropped ones are removed from the lines node. |
| RoboCup.RoboCupField.AppendBlankLines | src/shared/util/field.cpp:666-672 | Fresh blank lines named after their positions are appended up to n, with their nodes appended in order. |
| RoboCup.NewBlankLines | src/shared/util/field.cpp:667-669 | One fresh blank line per position from the old count up to n, named "Line i" after its position, each in its own new node, no node shared. |
| RoboCup.RoboCupField.ResizeFieldArcs | src/shared/util/field.cpp:681-707 | The same as for lines, with blank "Arc i" records whose type leaf is named "type". |
| RoboCup.RoboCupField.DropArcsFrom | src/shared/util/field.cpp:686-693 | The first n arcs are kept, and the dropped arcs' nodes are removed from the arcs node. |
| RoboCup.RoboCupField.AppendBlankArcs | src/shared/util/field.cpp:694-700 | Fresh blank arcs named after their positions are appended up to n, with their nodes. |
| RoboCup.NewBlankArcs | src/shared/util/field.cpp:695-697 | One fresh blank arc per position from the old count up to n, named "Arc i" after its position, each in its own new node, no node shared. |
| RoboCup.RoboCupField.ApplyGeometryDivision | src/shared/util/field.cpp:470-522 | Every scalar parameter takes the preset's value. Records, nodes and counters are untouched. |
| RoboCup.RoboCupField.ToProtoBuffer | src/shared/util/field.cpp:532-575 | The integer scalars are the truncated parameters and the radii are copied. There is one entry per line and one per arc, in record order, each with the record's name and its resolved type. |
| RoboCup.RoboCupField.ProcessNewFieldLines | src/shared/util/field.cpp:622-651 | Old records stay as a prefix. The unbound children that pass the schema are appended as fresh adopted records, in child order. The unbound children that fail it are removed from the node. Every appended record holds all its leaves. The counter becomes the record count. |
| RoboCup.RoboCupField.VisitLineEntries | src/shared/util/field.cpp:625-642 | The loop over the children snapshot gives what the reconcile functions prescribe. |
| RoboCup.RoboCupField.HasLineFor | src/shared/util/field.cpp:628-631 | The scan finds a record iff some record is bound to the node. |
| RoboCup.RoboCupField.VisitLineEntry | src/shared/util/field.cpp:626-641 | One visited child advances the pass by one step and appends only fresh records. |
| RoboCup.RoboCupField.AdoptOrDropLine | src/shared/util/field.cpp:632-641 | An unbound child is adopted as a fresh record, or dropped from the node. |
| RoboCup.RoboCupField.AddAdoptedLine | src/shared/util/field.cpp:635-637 | The adopted record is appended and the pass advances. |
| RoboCup.RoboCupField.AppendLine | src/shared/util/field.cpp:637 | The adopted line is appended, and every record appended in this pass is still bound to a node other than the lines node and adopted from it. |
| RoboCup.RoboCupField.DropLineEntry | src/shared/util/field.cpp:638-640 | The refused child is removed from the node and the pass advances. |
| RoboCup.RoboCupField.ProcessNewFieldArcs | src/shared/util/field.cpp:590-620 | The same as for lines, with the arc schema. |
| RoboCup.RoboCupField.HasArcFor | src/shared/util/field.cpp:596-599 | The scan finds an arc iff some arc is bound to the node. |
| RoboCup.RoboCupField.VisitArcEntries | src/shared/util/field.cpp:593-611 | The loop over the children snapshot gives what the reconcile functions prescribe: the arcs gain exactly the adopted entries and the node loses exactly the dropped ones, the old arcs stay, and every appended arc is fresh and adopted from its node. |
| RoboCup.RoboCupField.VisitArcEntry | src/shared/util/field.cpp:594-610 | One visited child advances the pass by one step and appends only fresh records. |
| RoboCup.RoboCupField.AdoptOrDropArc | src/shared/util/field.cpp:600-610 | An unbound child is adopted as a fresh arc record, or dropped from the node. |
| RoboCup.RoboCupField.AddAdoptedArc | src/shared/util/field.cpp:602-606 | The adopted arc is appended and the pass advances. |
| RoboCup.RoboCupField.DropArcEntry | src/shared/util/field.cpp:607-609 | The refused child is removed from the node and the pass advances. |
| RoboCup.RoboCupField.AppendArc | src/shared/util/field.cpp:606 | The adopted arc is appended, and every record appended in this pass is still bound to a node other than the arcs node and adopted from it. |

## Left out

- Qt signal and slot wiring is left out. The slots are plain methods a caller invokes; `calibrationChanged` is not emitted.
- The read/write mutex is left out. Each method is atomic.
- Memory management is left out: `delete` of records, leaves and nodes. Records dropped by the manager are not released (deleted memory is unobservable). The destructor's effect on the record's own node is `Release`.
- `fillTypeEnum` is left out: the items it adds to the Type enumeration only feed the settings widget. The adopting arc constructor calls it through the type reference, so `FieldCircularArc.Wrap` requires that reference to be set (see "## Findings").
- RoboCup.RoboCupField.ToProtoBuffer requires every record to hold all its leaves. field.cpp dereferences each leaf at lines 552-571 without a check, and as written a reconcile pass can append a line with an unset leaf (see "## Findings"). With the corrected adoption, every record the model creates holds all its leaves: the constructor, `UpdateFieldLinesAndArcs` and the resize methods create shaped records, and `ProcessNewFieldLines` and `ProcessNewFieldArcs` append complete ones only.
- FieldMarkings.AdoptChildren, `FieldLine.FromVarList` and `FieldCircularArc.FromVarList` follow the corrected decision `Adoption.Adopt`, not the written one. `Adoption.AdoptAsWritten` keeps the written decision, and `Adoption.AdoptGuardsAsWritten` states how the two differ.
- The `fprintf` diagnostics of the "Bug discovered" count checks are left out. The checks only log, and `Reconcile.ReconcileBalances` and `Reconcile.VanishedNodeKeepsRecord` state when they are silent and when not.
- The ball-model presets and `toProtoBuffer(SSL_GeometryModels&)` are left out.
- The other settings items of the constructor are left out.
- The preset tables of `field_default_constants.h` are parameters. That file is not part of this model, so `ApplyGeometryDivision` takes the table and the ball and robot radii of the constructor are parameters.
- The `(float)` narrowing of the two radii in `toProtoBuffer` is left out. The protobuf message is a plain datatype.
- Doubles are exact reals, so IEEE rounding is not captured. The default-line facts survive rounding, because negation is exact and L - depth with 0 <= depth <= L rounds into [0, L]. `TwoPi` is the decimal literal of the double `2.0*M_PI`, not a product computed in double precision.
- The `int32` range of the truncated scalars is not modelled: `Trunc` is unbounded.
- VarList, VarDouble, VarString and VarStringEnum are not part of this model.
  - `VarTree.Var` stands for them: a name, a text, a number and a list of children.
  - `removeChild` removes every occurrence of the child and `addChild` appends.
  - The `reinterpret_cast` of a child to a list is a plain reference.
- `FromVarList`'s if/else chain over names is the `FieldIndex` lookup. Its scan is the generic `AdoptChildren` over the schema.
- The adopting constructor `Wrap` takes its seven or eight leaf references as one sequence.
- `updateFieldLinesAndArcs` is modelled as its two halves, `LoadDefaultLines` and `LoadDefaultArcs`. The twelve `push_back` calls are one loop over `DefaultLines`.
- The constructor's `field_lines.empty() && field_arcs.empty()` guard is always true there, so the model regenerates unconditionally.
- `ProcessNewFieldLines` and `ProcessNewFieldArcs` require that the list node is not its own child. field.cpp assumes a tree; without this, removing a child could change the children of a node still to be visited.
- The growing loop of `ResizeFieldLines` and `ResizeFieldArcs` first creates the blank records (`NewBlankLines`, `NewBlankArcs`) and then appends them and their nodes in one step. field.cpp appends each record and its node in turn. The final state is the same, and under the write lock nothing sees the steps in between.
- `ResizeFieldLines` and `ResizeFieldArcs` require a non-negative counter. field.cpp casts it to an unsigned size.
- `ResizeFieldLines` and `ResizeFieldArcs` do not state that the child count equals the record count afterwards whenever it did before. That holds only when the node holds exactly the records' nodes: with records bound to [a] and children [b], shrinking to 0 leaves one child and no record. The contract states that this stronger sync (`LinesInSync`, `ArcsInSync`) is preserved.

## Findings

| source | as written | input that shows it | evidently intended | confidence | as-written member | corrected member |
|---|---|---|---|---|---|---|
| src/shared/util/field.cpp:181-231 | `FieldCircularArc::FromVarList` accepts eight children named after arc fields even when a name repeats. The type reference then stays NULL, and the adopting constructor calls `fillTypeEnum` (322-325), which dereferences it. | An arc node whose children are named Name, Name, Center.x, Center.y, Radius, Start angle, End angle, Line thickness. | The node is refused like any other malformed node: no record, and `ProcessNewFieldArcs` removes it. | not executed; high | Adoption.ArcWithoutTypeAccepted | Adoption.AdoptFillsEveryField |
| src/shared/util/field.cpp:25-60 | `FieldLine::FromVarList` accepts seven children named after line fields even when a name repeats. The displaced leaf reference stays NULL, and `toProtoBuffer` (552-558) dereferences it. | A line node whose children are named Name, Name, P1.x, P1.y, P2.x, P2.y, Line thickness. | The node is refused: no record, and `ProcessNewFieldLines` removes it. | not executed; high | Adoption.DuplicateNameAccepted | Adoption.AdoptFillsEveryField |
