/**
 * The admin's add, rename and delete wizards over the specialization table
 * (`admin_specialization.py`), and the shorter add handler of `admin_spec_course.py`. The
 * two add paths guard against duplicates differently: the first compares the stripped input
 * without regard to case but stores the text as typed; the second compares the stripped
 * input exactly and stores it stripped.
 */
module SpecializationAdmin {
  import opened Wrappers
  import opened Strings

  // ------------------------------------------------------------ the table

  /** The `specialization` table: id to name, ids handed out by an increasing sequence. */
  class SpecializationTable {
    var names: map<nat, string>
    var nextId: nat

    /** No row holds an id the sequence has still to hand out. */
    predicate Valid()
      reads this
    {
      forall id :: id in names ==> id < nextId
    }

    constructor ()
      ensures Valid() && names == map[] && nextId == 1
    {
      names, nextId := map[], 1;
    }

    /** `session.add(Specialization(name=...))` and commit: a new row under a fresh id. */
    method Insert(name: string) returns (id: nat)
      requires Valid()
      modifies this
      ensures Valid()
      ensures id == old(nextId) && id !in old(names)
      ensures names == old(names)[id := name] && nextId == old(nextId) + 1
    {
      id := nextId;
      names := names[id := name];
      nextId := nextId + 1;
    }

    /** `specialization.name = ...` and commit. */
    method Rename(id: nat, name: string)
      requires Valid() && id in names
      modifies this
      ensures Valid() && names == old(names)[id := name] && nextId == old(nextId)
    {
      names := names[id := name];
    }

    /** `session.delete(specialization)` and commit. */
    method Delete(id: nat)
      requires Valid() && id in names
      modifies this
      ensures Valid() && names == old(names) - {id} && nextId == old(nextId)
    {
      names := names - {id};
    }
  }

  // ------------------------------------------------------------ duplicate rules

  /** `Specialization.name.ilike(name)`: some row carries the name up to letter case. */
  predicate TakenIgnoringCase(names: map<nat, string>, name: string)
  {
    exists id :: id in names && EqualsIgnoreCase(names[id], name)
  }

  /** `Specialization.name == name`: some row carries exactly the name. */
  predicate TakenExactly(names: map<nat, string>, name: string)
  {
    exists id :: id in names && names[id] == name
  }

  /** The case-insensitive rule refuses everything the exact rule refuses. */
  lemma ExactlyTakenIsTakenIgnoringCase(names: map<nat, string>, name: string)
    requires TakenExactly(names, name)
    ensures TakenIgnoringCase(names, name)
  {
    var id :| id in names && names[id] == name;
    assert EqualsIgnoreCase(names[id], name);
  }

  /**
   * The exact rule lets in a name that differs from a stored one only in letter case: for
   * every stored name without edge blanks, its lower-case spelling, when no row carries it
   * exactly, passes the edit form's exact check and is refused by the add wizard's check.
   */
  lemma CaseVariantPassesExactRule(names: map<nat, string>, id: nat)
    requires id in names && Strip(names[id]) == names[id]
    requires forall k :: k in names ==> names[k] != ToLower(names[id])
    ensures var typed := ToLower(names[id]);
      !TakenExactly(names, Strip(typed)) && TakenIgnoringCase(names, Strip(typed))
  {
    var n := names[id];
    var typed := ToLower(n);
    ToLowerKeepsStripped(n);
    ToLowerIdempotent(n);
    assert id in names && EqualsIgnoreCase(names[id], typed);
  }

  /**
   * The add wizard stores the text as typed but checks it stripped, so a name stored with a
   * surrounding blank never blocks the same name typed without it: whether that input is
   * refused depends on the other rows alone.
   */
  lemma StoredBlankEscapesCheck(names: map<nat, string>, id: nat)
    requires id in names && Strip(names[id]) != names[id]
    ensures var typed := Strip(names[id]);
      && !EqualsIgnoreCase(names[id], Strip(typed))
      && (TakenIgnoringCase(names, Strip(typed)) <==> TakenIgnoringCase(names - {id}, Strip(typed)))
  {
    var n := names[id];
    var typed := Strip(n);
    StripIdempotent(n);
    DifferentLengthsDiffer(n, typed);
    OtherRowsDecide(names, id, typed);
  }

  /** A row that does not match a name leaves the decision to the other rows. */
  lemma OtherRowsDecide(names: map<nat, string>, id: nat, name: string)
    requires id in names && !EqualsIgnoreCase(names[id], name)
    ensures TakenIgnoringCase(names, name) <==> TakenIgnoringCase(names - {id}, name)
  {
    if TakenIgnoringCase(names, name) {
      var k :| k in names && EqualsIgnoreCase(names[k], name);
      assert k in names - {id};
    }
  }

  // ------------------------------------------------------------ selection payloads

  const EditPrefix: string := "edit_specialization_"
  const DeletePrefix: string := "delete_specialization_"

  /** `int(data.split("_")[-1])` on the digits it accepts. */
  function ParseSelection(data: string): Option<nat>
  {
    ParseNat(LastSegment(data, '_'))
  }

  /** The edit and delete lists' buttons are read back as their specialization's id. */
  lemma ParseSelectionRoundTrip(prefixStem: string, id: nat)
    ensures ParseSelection(prefixStem + "_" + NatToString(id)) == Some(id)
  {
    assert forall i :: 0 <= i < |NatToString(id)| ==> NatToString(id)[i] != '_';
    LastSegmentAfter(prefixStem, NatToString(id), '_');
    ParseNatToString(id);
  }

  lemma EditAndDeletePayloads(id: nat)
    ensures ParseSelection(EditPrefix + NatToString(id)) == Some(id)
    ensures ParseSelection(DeletePrefix + NatToString(id)) == Some(id)
  {
    ParseSelectionRoundTrip("edit_specialization", id);
    assert "edit_specialization" + "_" + NatToString(id) == EditPrefix + NatToString(id);
    ParseSelectionRoundTrip("delete_specialization", id);
    assert "delete_specialization" + "_" + NatToString(id) == DeletePrefix + NatToString(id);
  }

  // ------------------------------------------------------------ the wizards

  /** The add, edit and delete states of the wizard, and no state at all. */
  datatype Step = Idle
                | AddName | AddConfirmation
                | EditSelection | EditName | EditConfirmation
                | DeleteSelection | DeleteConfirmation

  datatype Reply =
    | AskName
    | Duplicate(name: string)
    | Preview(name: string)
    | Added
    | ListShown
    | EmptyList
    | NotFound
    | SelectionError
    | AskNewName(current: string)
    | AskConfirmation
    | NotSelected
    | Renamed(name: string)
    | AskDelete(name: string)
    | Deleted(name: string)
    | Cancelled
    | Crashed

  /** The wizards of `admin_specialization.py`: one chat's FSM state and data over the table. */
  class SpecializationWizard {
    const table: SpecializationTable
    var step: Step
    // the FSM data keys `name`, `specialization_id`, `current_name`, `new_name`, `specialization_name`
    var name: Option<string>
    var specId: Option<nat>
    var currentName: Option<string>
    var newName: Option<string>
    var specName: Option<string>

    predicate Valid()
      reads this, table
    {
      table.Valid()
    }

    predicate Cleared()
      reads this
    {
      step == Idle && name.None? && specId.None? && currentName.None? && newName.None? && specName.None?
    }

    constructor (table: SpecializationTable)
      requires table.Valid()
      ensures Valid() && this.table == table && Cleared()
    {
      this.table := table;
      step, name, specId, currentName, newName, specName := Idle, None, None, None, None, None;
    }

    method Clear()
      modifies this
      ensures Cleared()
    {
      step, name, specId, currentName, newName, specName := Idle, None, None, None, None, None;
    }

    /** `add_specialization_start`: any state; the data is kept. */
    method StartAdd() returns (reply: Reply)
      modifies this
      ensures step == AddName && reply == AskName
      ensures name == old(name) && specId == old(specId) && currentName == old(currentName)
      ensures newName == old(newName) && specName == old(specName)
    {
      step := AddName;
      reply := AskName;
    }

    /**
     * `add_specialization_name`: a name already present, ignoring case and surrounding
     * blanks of the input, is refused and asked again; otherwise the text as typed is kept
     * for confirmation.
     */
    method ReceiveName(text: string) returns (reply: Reply)
      requires Valid() && step == AddName
      modifies this
      ensures Valid() && unchanged(table)
      ensures TakenIgnoringCase(table.names, Strip(text)) ==> reply == Duplicate(Strip(text)) && unchanged(this)
      ensures !TakenIgnoringCase(table.names, Strip(text)) ==>
        && reply == Preview(text) && name == Some(text) && step == AddConfirmation
        && specId == old(specId) && currentName == old(currentName) && newName == old(newName) && specName == old(specName)
    {
      var stripped := Strip(text);
      if TakenIgnoringCase(table.names, stripped) {
        return Duplicate(stripped);
      }
      name := Some(text);
      step := AddConfirmation;
      reply := Preview(text);
    }

    /** `confirm_ass_specialization`: one new row with the pending name, then the wizard ends. */
    method ConfirmAdd() returns (reply: Reply)
      requires Valid() && step == AddConfirmation
      modifies this, table
      ensures Valid()
      ensures old(name).None? ==> reply == Crashed && unchanged(this, table)
      ensures old(name).Some? ==>
        && table.names == old(table.names)[old(table.nextId) := old(name).value]
        && old(table.nextId) !in old(table.names)
        && reply == Added && Cleared()
    {
      if name.None? {
        return Crashed;
      }
      var _ := table.Insert(name.value);
      Clear();
      reply := Added;
    }

    /** `cancel_add_specialization`: any state; nothing is written. */
    method CancelAdd() returns (reply: Reply)
      modifies this
      ensures Cleared() && reply == Cancelled
    {
      Clear();
      reply := Cancelled;
    }

    /** `edit_specialization`: the selection state is entered even when there is nothing to select. */
    method StartEdit() returns (reply: Reply)
      requires Valid()
      modifies this
      ensures step == EditSelection && reply == (if |table.names| == 0 then EmptyList else ListShown)
      ensures name == old(name) && specId == old(specId) && currentName == old(currentName)
      ensures newName == old(newName) && specName == old(specName)
    {
      step := EditSelection;
      reply := if |table.names| == 0 then EmptyList else ListShown;
    }

    /** `select_specialization_to_edit`: an unknown or unreadable id keeps the selection state. */
    method SelectEdit(data: string) returns (reply: Reply)
      requires Valid() && step == EditSelection && StartsWith(data, EditPrefix)
      modifies this
      ensures Valid() && unchanged(table)
      ensures ParseSelection(data).None? ==> reply == SelectionError && unchanged(this)
      ensures ParseSelection(data).Some? && ParseSelection(data).value !in table.names ==>
        reply == NotFound && unchanged(this)
      ensures ParseSelection(data).Some? && ParseSelection(data).value in table.names ==>
        var id := ParseSelection(data).value;
        && specId == Some(id) && currentName == Some(table.names[id]) && step == EditName
        && reply == AskNewName(table.names[id])
        && name == old(name) && newName == old(newName) && specName == old(specName)
    {
      var parsed := ParseSelection(data);
      if parsed.None? {
        return SelectionError;
      }
      var id := parsed.value;
      if id !in table.names {
        return NotFound;
      }
      specId, currentName := Some(id), Some(table.names[id]);
      step := EditName;
      reply := AskNewName(table.names[id]);
    }

    /** `process_new_name`: the text is kept as typed, without any check. */
    method ReceiveNewName(text: string) returns (reply: Reply)
      requires step == EditName
      modifies this
      ensures newName == Some(text) && step == EditConfirmation && reply == AskConfirmation
      ensures name == old(name) && specId == old(specId) && currentName == old(currentName) && specName == old(specName)
    {
      newName := Some(text);
      step := EditConfirmation;
      reply := AskConfirmation;
    }

    /**
     * `confirm_edit_specialization`: renames the chosen row, and nothing else, if a new name
     * was given; a missing choice or a vanished row ends the wizard without a change.
     */
    method ConfirmEdit() returns (reply: Reply)
      requires Valid() && step == EditConfirmation
      modifies this, table
      ensures Valid() && Cleared() && table.nextId == old(table.nextId)
      ensures old(specId).None? ==> reply == NotSelected && table.names == old(table.names)
      ensures old(specId).Some? && old(specId).value !in old(table.names) ==>
        reply == NotFound && table.names == old(table.names)
      ensures old(specId).Some? && old(specId).value in old(table.names) ==>
        var id := old(specId).value;
        && table.names == (if old(newName).Some? then old(table.names)[id := old(newName).value] else old(table.names))
        && reply == Renamed(table.names[id])
    {
      if specId.None? {
        Clear();
        return NotSelected;
      }
      var id := specId.value;
      if id !in table.names {
        Clear();
        return NotFound;
      }
      if newName.Some? {
        table.Rename(id, newName.value);
      }
      reply := Renamed(table.names[id]);
      Clear();
    }

    /** `cancel_edit_specialization`: any state; nothing is written. */
    method CancelEdit() returns (reply: Reply)
      modifies this
      ensures Cleared() && reply == Cancelled
    {
      Clear();
      reply := Cancelled;
    }

    /** `delete_specialization_start`: with an empty table the state is left as it was. */
    method StartDelete() returns (reply: Reply)
      requires Valid()
      modifies this
      ensures |table.names| == 0 ==> reply == EmptyList && unchanged(this)
      ensures |table.names| > 0 ==> reply == ListShown && step == DeleteSelection
      ensures name == old(name) && specId == old(specId) && currentName == old(currentName)
      ensures newName == old(newName) && specName == old(specName)
    {
      if |table.names| == 0 {
        return EmptyList;
      }
      step := DeleteSelection;
      reply := ListShown;
    }

    /** `select_specialization_to_delete`: an unreadable id raises, an unknown one keeps the state. */
    method SelectDelete(data: string) returns (reply: Reply)
      requires Valid() && step == DeleteSelection && StartsWith(data, DeletePrefix)
      modifies this
      ensures Valid() && unchanged(table)
      ensures ParseSelection(data).None? ==> reply == Crashed && unchanged(this)
      ensures ParseSelection(data).Some? && ParseSelection(data).value !in table.names ==>
        reply == NotFound && unchanged(this)
      ensures ParseSelection(data).Some? && ParseSelection(data).value in table.names ==>
        var id := ParseSelection(data).value;
        && specId == Some(id) && specName == Some(table.names[id]) && step == DeleteConfirmation
        && reply == AskDelete(table.names[id])
        && name == old(name) && currentName == old(currentName) && newName == old(newName)
    {
      var parsed := ParseSelection(data);
      if parsed.None? {
        return Crashed;
      }
      var id := parsed.value;
      if id !in table.names {
        return NotFound;
      }
      specId, specName := Some(id), Some(table.names[id]);
      step := DeleteConfirmation;
      reply := AskDelete(table.names[id]);
    }

    /** `confirm_delete_specialization`: removes the chosen row, and only it, if it is still there. */
    method ConfirmDelete() returns (reply: Reply)
      requires Valid() && step == DeleteConfirmation
      modifies this, table
      ensures Valid() && table.nextId == old(table.nextId)
      ensures old(specId).None? ==> reply == Crashed && unchanged(this, table)
      ensures old(specId).Some? && old(specId).value !in old(table.names) ==>
        reply == NotFound && table.names == old(table.names) && Cleared()
      ensures old(specId).Some? && old(specId).value in old(table.names) ==>
        && table.names == old(table.names) - {old(specId).value}
        && (old(specName).Some? ==> reply == Deleted(old(specName).value) && Cleared())
        && (old(specName).None? ==> reply == Crashed && unchanged(this))
    {
      if specId.None? {
        return Crashed;
      }
      var id := specId.value;
      if id in table.names {
        table.Delete(id);
        if specName.None? {
          return Crashed;
        }
        reply := Deleted(specName.value);
      } else {
        reply := NotFound;
      }
      Clear();
    }

    /** `cancel_delete_specialization`: nothing is written. */
    method CancelDelete() returns (reply: Reply)
      requires step == DeleteConfirmation
      modifies this
      ensures Cleared() && reply == Cancelled
    {
      Clear();
      reply := Cancelled;
    }
  }

  /** The states of `SpecializationStates` used by `admin_spec_course.py`. */
  datatype NameStep = NoName | WaitingForSpecializationName

  /** `admin_spec_course.py`: one chat's FSM state over the table. */
  class SpecializationNameForm {
    const table: SpecializationTable
    var step: NameStep

    constructor (table: SpecializationTable)
      ensures this.table == table && step == NoName
    {
      this.table := table;
      step := NoName;
    }

    /** `add_specialization_start` ('➕ Добавить', any state). */
    method Start() returns (reply: Reply)
      modifies this
      ensures step == WaitingForSpecializationName && reply == AskName
    {
      step := WaitingForSpecializationName;
      reply := AskName;
    }

    /**
     * `add_specialization_save`: the input is stripped; a name present exactly as typed is
     * refused and asked again; otherwise it is stored stripped and the form ends.
     */
    method Save(text: string) returns (reply: Reply)
      requires table.Valid() && step == WaitingForSpecializationName
      modifies this, table
      ensures table.Valid()
      ensures TakenExactly(old(table.names), Strip(text)) ==> reply == Duplicate(Strip(text)) && unchanged(this, table)
      ensures !TakenExactly(old(table.names), Strip(text)) ==>
        && table.names == old(table.names)[old(table.nextId) := Strip(text)]
        && old(table.nextId) !in old(table.names)
        && reply == Preview(Strip(text)) && step == NoName
    {
      var stripped := Strip(text);
      if TakenExactly(table.names, stripped) {
        return Duplicate(stripped);
      }
      var _ := table.Insert(stripped);
      step := NoName;
      reply := Preview(stripped);
    }
  }
}
