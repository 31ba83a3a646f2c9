/** Normal and insert mode as a state machine over key presses. */
module Modes {
  import opened Prelude
  import opened Characters
  import opened Delta
  import opened Builder
  import opened Region
  import opened Selections
  import opened Operations
  import opened HexTyping
  import opened DeletePaste
  import opened Timeline
  import opened Search
  import opened Split
  import opened WidthSplit
  import Selection

  datatype InsertionMode = Insert | Append | Overwrite

  /** In insert mode with hex input, `half` is the first digit of a byte, shifted up. */
  datatype Mode = Normal | Inserting(how: InsertionMode, hex: bool, half: Option<Byte>)

  /** What a key press means; a key that means nothing in the current mode is ignored. A
      command that the user enters in several presses, such as a count, a width or a search
      pattern, is one key here. */
  datatype Key =
    | Move(direction: Direction, count: nat)
    | Extend(direction: Direction, count: nat)
    | SwapCaret
    | CollapseSelection
    | JumpTo(offset: nat)
    | ExtendTo(offset: nat)
    | SelectAll
    | NextMain(count: nat)
    | PreviousMain(count: nat)
    | RetainMain(count: nat)
    | RemoveMain(count: nat)
    | SplitWidth(step: nat)
    | SplitAt(pattern: Doc)
    | CollapseTo(pattern: Doc)
    | Delete(register: char)
    | Yank(register: char)
    | Paste(after: bool, register: char, count: nat)
    | Change(hex: bool, register: char)
    | StartInsert(hex: bool)
    | StartAppend(hex: bool)
    | StartOverwrite(hex: bool)
    | UndoKey
    | RedoKey
    | TypeChar(ch: char)
    | InsertNull
    | SwitchInputMode
    | RemoveLast
    | RemoveThis
    | Exit
    | MoveCaret(direction: Direction)
    | ScrollUp

  type Registers = map<char, seq<Doc>>

  datatype Editor = Editor(buffer: Buffer, registers: Registers, mode: Mode)

  // ----- regions that keys produce

  function Moved(rs: seq<Region>, direction: Direction, bytesPerLine: nat, size: nat, count: nat): (out: seq<Region>)
    ensures |out| == |rs|
    ensures forall i :: 0 <= i < |rs| ==> out[i] == rs[i].SimpleMove(direction, bytesPerLine, size, count)
  {
    seq(|rs|, i requires 0 <= i < |rs| => rs[i].SimpleMove(direction, bytesPerLine, size, count))
  }

  function Extended(rs: seq<Region>, direction: Direction, bytesPerLine: nat, size: nat, count: nat): (out: seq<Region>)
    ensures |out| == |rs|
    ensures forall i :: 0 <= i < |rs| ==> out[i] == rs[i].SimpleExtend(direction, bytesPerLine, size, count)
  {
    seq(|rs|, i requires 0 <= i < |rs| => rs[i].SimpleExtend(direction, bytesPerLine, size, count))
  }

  function Swapped(rs: seq<Region>): (out: seq<Region>)
    ensures |out| == |rs| && forall i :: 0 <= i < |rs| ==> out[i] == rs[i].SwapCaret()
  {
    seq(|rs|, i requires 0 <= i < |rs| => rs[i].SwapCaret())
  }

  function Collapsed(rs: seq<Region>): (out: seq<Region>)
    ensures |out| == |rs| && forall i :: 0 <= i < |rs| ==> out[i] == rs[i].Collapse()
  {
    seq(|rs|, i requires 0 <= i < |rs| => rs[i].Collapse())
  }

  function AllBackward(rs: seq<Region>): (out: seq<Region>)
    ensures |out| == |rs| && forall i :: 0 <= i < |rs| ==> out[i] == rs[i].ToBackward()
  {
    seq(|rs|, i requires 0 <= i < |rs| => rs[i].ToBackward())
  }

  function JumpedTo(rs: seq<Region>, offset: nat): (out: seq<Region>)
    ensures |out| == |rs| && forall i :: 0 <= i < |rs| ==> out[i] == At(offset, offset)
  {
    seq(|rs|, _ => At(offset, offset))
  }

  function ExtendedTo(rs: seq<Region>, offset: nat): (out: seq<Region>)
    ensures |out| == |rs| && forall i :: 0 <= i < |rs| ==> out[i] == At(offset, rs[i].tail)
  {
    seq(|rs|, i requires 0 <= i < |rs| => At(offset, rs[i].tail))
  }

  /** The regions that append mode starts with: forward, and one byte longer. */
  function Appending(rs: seq<Region>, bytesPerLine: nat, size: nat): (out: seq<Region>)
    ensures |out| == |rs|
    ensures forall i :: 0 <= i < |rs| ==> out[i] == rs[i].ToForward().SimpleExtend(Right, bytesPerLine, size, 1)
  {
    seq(|rs|, i requires 0 <= i < |rs| => rs[i].ToForward().SimpleExtend(Right, bytesPerLine, size, 1))
  }

  /** Moving the caret in insert mode; a byte that was just completed is stepped over. */
  function CaretMoved(rs: seq<Region>, direction: Direction, bytesPerLine: nat, size: nat, wasHalf: bool): seq<Region> {
    var once := Moved(rs, direction, bytesPerLine, size, 1);
    if wasHalf then Moved(once, Left, bytesPerLine, size, 1) else once
  }

  // ----- what keys do

  function Register(registers: Registers, name: char): seq<Doc> {
    if name in registers then registers[name] else [[]]
  }

  function PartialEdit(v: View, es: seq<Edit>, caretShift: int): Effect {
    Effect.Edit(Build(es, |v.data|), caretShift, 0, false)
  }

  function FinalEdit(v: View, es: seq<Edit>): Effect {
    Effect.Edit(Build(es, |v.data|), 0, 0, true)
  }

  /** `transition_hex_insertion` for a hex digit. */
  function HexEffect(v: View, how: InsertionMode, half: Option<Byte>, digit: Byte): Effect {
    var rs := v.selection.regions;
    if half.Some? then PartialEdit(v, ChangeEdits(rs, [half.value | digit]), 0)
    else if how == Overwrite then PartialEdit(v, OverwriteHalfEdits(v.data, rs, digit << 4), -1)
    else PartialEdit(v, InsertEdits(rs, [digit << 4]), -1)
  }

  /** `transition_ascii_insertion` */
  function TextEffect(v: View, how: InsertionMode, bytes: Doc): Effect {
    var rs := v.selection.regions;
    if how == Overwrite then PartialEdit(v, ChangeEdits(rs, bytes), 0) else PartialEdit(v, InsertEdits(rs, bytes), 0)
  }

  lemma HexEffectFits(v: View, how: InsertionMode, half: Option<Byte>, digit: Byte)
    requires WellPlaced(v)
    ensures ValidOn(HexEffect(v, how, half, digit).delta, v.data)
  {
    var rs := v.selection.regions;
    if half.Some? {
      ChangeOrdered(rs, [half.value | digit], |v.data|);
      BuildApplies(ChangeEdits(rs, [half.value | digit]), v.data);
    } else if how == Overwrite {
      OverwriteHalfOrdered(v.data, rs, digit << 4);
      BuildApplies(OverwriteHalfEdits(v.data, rs, digit << 4), v.data);
    } else {
      InsertOrdered(rs, [digit << 4], |v.data|);
      BuildApplies(InsertEdits(rs, [digit << 4]), v.data);
    }
  }

  /** Moving away from a half-typed byte completes it with a zero first. */
  function CompleteAndMove(v: View, mode: Mode, direction: Direction, bytesPerLine: nat): seq<Effect>
    requires WellPlaced(v) && mode.Inserting?
  {
    HexEffectFits(v, mode.how, mode.half, 0);
    var complete := HexEffect(v, mode.how, mode.half, 0);
    match EditView(v, complete.delta, complete.caretShift, complete.tailShift)
    case Panic => [complete]
    case Ok(v') =>
      [complete, Select(Singles(CaretMoved(v'.selection.regions, direction, bytesPerLine, |v'.data|, true)))]
  }

  function InsertEffects(v: View, mode: Mode, key: Key, bytesPerLine: nat): seq<Effect>
    requires WellPlaced(v) && mode.Inserting?
  {
    var rs, n := v.selection.regions, |v.data|;
    match key
    case Exit => [Commit]
    case InsertNull => [PartialEdit(v, InsertEdits(rs, [0]), 0)]
    case RemoveLast =>
      if v.data == [] then []
      else if mode.half.Some? then [PartialEdit(v, DeleteCursorEdits(rs, n), 0)]
      else [PartialEdit(v, BackspaceEdits(rs), 0)]
    case RemoveThis =>
      if v.data == [] then [] else [PartialEdit(v, DeleteCursorEdits(rs, n), 0)]
    case MoveCaret(direction) =>
      if mode.half.None? then [Select(Singles(CaretMoved(rs, direction, bytesPerLine, n, false)))]
      else CompleteAndMove(v, mode, direction, bytesPerLine)
    case TypeChar(ch) =>
      if !mode.hex then [TextEffect(v, mode.how, Encode(ch))]
      else if HexDigit(ch).None? then []
      else [HexEffect(v, mode.how, mode.half, HexDigit(ch).value)]
    case ScrollUp => [Select(Singles(Moved(rs, Up, bytesPerLine, n, 1)))]
    case _ => []
  }

  function InsertNext(v: View, mode: Mode, key: Key): Mode
    requires mode.Inserting?
  {
    match key
    case Exit => Normal
    case InsertNull => mode.(half := None)
    case SwitchInputMode => mode.(hex := !mode.hex, half := None)
    case RemoveLast => if v.data == [] then mode else mode.(half := None)
    case RemoveThis => if v.data == [] then mode else mode.(half := None)
    case MoveCaret(_) => mode.(half := None)
    case TypeChar(ch) =>
      if mode.hex && HexDigit(ch).Some? then
        mode.(half := if mode.half.Some? then None else Some(HexDigit(ch).value << 4))
      else mode
    case _ => mode
  }

  /** The matches of a literal pattern in the selection, which lie in their regions. */
  function MatchesIn(v: View, pattern: Doc): (ms: seq<seq<Range>>)
    requires pattern != [] && WellPlaced(v)
    ensures LaidAll(v.selection.regions, ms)
  {
    var ms := Matches(v.data, pattern, v.selection.regions);
    MatchesUnique(v.data, pattern, v.selection.regions, ms);
    MatchesLaid(v.data, pattern, v.selection.regions, ms);
    ms
  }

  /** Splitting at a pattern, refused if the pattern is empty or matches all that is selected. */
  function SplitEffects(v: View, pattern: Doc): seq<Effect>
    requires WellPlaced(v)
  {
    if pattern == [] then []
    else
      var rs, ms := v.selection.regions, MatchesIn(v, pattern);
      if MatchedLen(ms) == SumRegions(rs) then [] else [Select(SplitOutputs(rs, ms))]
  }

  /** Collapsing to a pattern, refused if the pattern is empty or matches nothing. */
  function CollapseEffects(v: View, pattern: Doc): seq<Effect>
    requires WellPlaced(v)
  {
    if pattern == [] then []
    else
      var rs, ms := v.selection.regions, MatchesIn(v, pattern);
      if MatchedLen(ms) == 0 then [] else [Select(CollapseOutputs(rs, ms))]
  }

  /** Splitting by a width of zero steps nowhere, which the iterator refuses. */
  function WidthEffect(v: View, step: nat): Effect {
    if step == 0 then Abort else Select(WidthOutputs(v.selection.regions, step))
  }

  predicate Reselects(key: Key) {
    key.SelectAll? || key.NextMain? || key.PreviousMain? || key.RetainMain? || key.RemoveMain?
  }

  /** The region that a count means: they are counted from one, and zero is the main one. */
  function Counted(s: Sel, count: nat): (index: nat)
    requires s.main < |s.regions|
    ensures index < |s.regions|
  {
    if count > 0 then Selection.Around(count - 1, |s.regions|) else s.main
  }

  /** The selection after a key that chooses another main region or takes regions away. */
  function Reselected(v: View, key: Key): Sel
    requires WellPlaced(v) && Reselects(key)
  {
    var s, n := v.selection, |v.selection.regions|;
    match key
    case NextMain(count) => Selection.MainMoved(s, Selection.Around(s.main + count, n))
    case PreviousMain(count) => Selection.MainMoved(s, Selection.Around(s.main - count, n))
    case RetainMain(count) => Selection.Retained(s, Counted(s, count))
    case RemoveMain(count) => Selection.Removed(s, Counted(s, count))
    case _ => Selection.AllSelected(|v.data|)
  }

  /** The regions that a key of normal mode makes of the old ones, one of each. */
  function Reshaped(v: View, key: Key, bytesPerLine: nat): (out: Option<seq<Region>>)
    ensures out.Some? ==> |out.value| == |v.selection.regions|
  {
    var rs, n := v.selection.regions, |v.data|;
    match key
    case Move(direction, count) => Some(Moved(rs, direction, bytesPerLine, n, count))
    case Extend(direction, count) => Some(Extended(rs, direction, bytesPerLine, n, count))
    case SwapCaret => Some(Swapped(rs))
    case CollapseSelection => Some(Collapsed(rs))
    case JumpTo(offset) => Some(JumpedTo(rs, offset))
    case ExtendTo(offset) => Some(ExtendedTo(rs, offset))
    case StartInsert(_) => Some(AllBackward(rs))
    case StartAppend(_) => Some(Appending(rs, bytesPerLine, n))
    case ScrollUp => Some(Moved(rs, Up, bytesPerLine, n, 1))
    case _ => None
  }

  /** The keys that change which regions there are. */
  function RegionEffects(v: View, key: Key): seq<Effect>
    requires WellPlaced(v)
  {
    match key
    case SplitWidth(step) => [WidthEffect(v, step)]
    case SplitAt(pattern) => SplitEffects(v, pattern)
    case CollapseTo(pattern) => CollapseEffects(v, pattern)
    case _ => if Reselects(key) then [Reselect(Reselected(v, key))] else []
  }

  /** The keys that change the selection only. */
  function SelectionEffects(v: View, key: Key, bytesPerLine: nat): seq<Effect>
    requires WellPlaced(v)
  {
    var reshaped := Reshaped(v, key, bytesPerLine);
    if reshaped.Some? then [Select(Singles(reshaped.value))] else RegionEffects(v, key)
  }

  predicate EditsText(key: Key) {
    key.Delete? || key.Change? || key.Paste? || key.UndoKey? || key.RedoKey?
  }

  /** The keys that change the document. */
  function EditEffects(v: View, registers: Registers, key: Key): seq<Effect>
    requires RegistersFilled(registers) && EditsText(key)
  {
    var rs := v.selection.regions;
    match key
    case Paste(after, name, count) =>
      [FinalEdit(v, PasteEdits(rs, 0, Register(registers, name), after, count, |v.data|))]
    case UndoKey => [Undo]
    case RedoKey => [Redo]
    case _ => if v.data == [] then [] else [FinalEdit(v, DeletionEdits(rs))]
  }

  function NormalEffects(v: View, registers: Registers, key: Key, bytesPerLine: nat): seq<Effect>
    requires RegistersFilled(registers) && WellPlaced(v)
  {
    if EditsText(key) then EditEffects(v, registers, key) else SelectionEffects(v, key, bytesPerLine)
  }

  function NormalNext(key: Key): Mode {
    match key
    case Change(hex, _) => Inserting(InsertionMode.Insert, hex, None)
    case StartInsert(hex) => Inserting(InsertionMode.Insert, hex, None)
    case StartAppend(hex) => Inserting(Append, hex, None)
    case StartOverwrite(hex) => Inserting(Overwrite, hex, None)
    case _ => Normal
  }

  predicate RegistersFilled(registers: Registers) {
    forall name :: name in registers ==> registers[name] != []
  }

  function Effects(ed: Editor, key: Key, bytesPerLine: nat): seq<Effect>
    requires RegistersFilled(ed.registers) && WellPlaced(ed.buffer.view)
  {
    if ed.mode.Normal? then NormalEffects(ed.buffer.view, ed.registers, key, bytesPerLine)
    else InsertEffects(ed.buffer.view, ed.mode, key, bytesPerLine)
  }

  /** Deleting, changing and yanking copy the selected bytes into a register first. */
  function RegistersAfter(ed: Editor, key: Key): Registers
    requires InBounds(ed.buffer.view.selection.regions, |ed.buffer.view.data|)
  {
    if ed.mode.Normal? && (key.Delete? || key.Change? || key.Yank?) then
      ed.registers[key.register := Yanked(ed.buffer.view.data, ed.buffer.view.selection.regions)]
    else ed.registers
  }

  function NextMode(ed: Editor, key: Key): Mode {
    if ed.mode.Normal? then NormalNext(key) else InsertNext(ed.buffer.view, ed.mode, key)
  }
}
