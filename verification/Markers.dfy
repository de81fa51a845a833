/** Conflict markers: their labels, how a conflict is written and how one left in a
    text is recognised. */
module Markers {
  import opened Options
  import opened Text

  // --- Labels ------------------------------------------------------------------------

  datatype DiffLabels = DiffLabels(generated: string, existing: string)

  /** whenStamp and lastStamp are the formatted clock readings of the two labels. */
  datatype DiffSpec = DiffSpec(whenStamp: string, lastStamp: string, kind: string, labels: Option<DiffLabels>)

  const MARK_START := "<<<<<<< "
  const MARK_MID := "=======\n"
  const MARK_END := ">>>>>>> "
  const LABEL_GENERATED := "GENERATED"
  const LABEL_EXISTING := "EXISTING"

  function LabelsOf(spec: DiffSpec, defaultKind: string): DiffLabels {
    var kind := if spec.kind == "" then defaultKind else spec.kind;
    var custom := ExplicitLabels(spec);
    DiffLabels(
      if custom.generated != "" then custom.generated else LABEL_GENERATED + ": " + spec.whenStamp + "/" + kind,
      if custom.existing != "" then custom.existing else LABEL_EXISTING + ": " + spec.lastStamp + "/" + kind)
  }

  function ExplicitLabels(spec: DiffSpec): DiffLabels {
    match spec.labels
    case None => DiffLabels("", "")
    case Some(labels) => labels
  }

  predicate HasDefaultMark(text: string) {
    || HasLine(text, MARK_START + LABEL_EXISTING + ":")
    || HasLine(text, MARK_END + LABEL_EXISTING + ":")
    || HasLine(text, MARK_START + LABEL_GENERATED + ":")
    || HasLine(text, MARK_END + LABEL_GENERATED + ":")
  }

  predicate HasLabelledMark(text: string, name: string) {
    name != "" && (HasLine(text, MARK_START + name + "\n") || HasLine(text, MARK_END + name + "\n"))
  }

  /** The text still holds an unresolved conflict, written under the default labels or
      under the given explicit ones. */
  predicate HasConflicts(text: string, custom: DiffLabels) {
    HasDefaultMark(text) || HasLabelledMark(text, custom.existing) || HasLabelledMark(text, custom.generated)
  }

  // --- Conflict blocks ------------------------------------------------------------------

  /** One side of a conflict, closed with a newline when its last line has none. */
  function Closed(side: seq<string>): seq<string> {
    side + if side == [] || EndsWithNewline(side[|side| - 1]) then [] else ["\n"]
  }

  /** A marked conflict, the existing side first. */
  function ConflictBlock(generated: seq<string>, existing: seq<string>, labels: DiffLabels): seq<string> {
    [MARK_START + labels.existing + "\n"] + Closed(existing)
    + [MARK_MID] + Closed(generated)
    + [MARK_END + labels.generated + "\n"]
  }

  /** Appends one side of a conflict after a line that is complete. */
  method WriteSide(out: seq<string>, side: seq<string>) returns (res: seq<string>)
    requires out != [] && EndsWithNewline(out[|out| - 1])
    ensures res == out + Closed(side)
  {
    res := out + side;
    assert res[|res| - 1] == if side == [] then out[|out| - 1] else side[|side| - 1];
    if !EndsWithNewline(res[|res| - 1]) {
      res := res + ["\n"];
    }
  }

  method WriteConflict(out: seq<string>, generated: seq<string>, existing: seq<string>, labels: DiffLabels)
    returns (res: seq<string>)
    ensures res == out + ConflictBlock(generated, existing, labels)
  {
    hide Closed;
    var open, close := MARK_START + labels.existing + "\n", MARK_END + labels.generated + "\n";
    res := WriteSide(out + [open], existing);
    ghost var half := [open] + Closed(existing);
    assert res == out + half;
    res := WriteSide(res + [MARK_MID], generated);
    assert res == out + (half + [MARK_MID] + Closed(generated));
    res := res + [close];
  }
}
