/** The list of named format configurations and the edits the formats
    manager makes to it: adding, removing with a floor of one, replacing
    options by id, and renaming through a small edit state. */
module FormatsManager {
  import opened Wrappers
  import opened DateTimeOptions
  import Text

  /** A named options object; `id` identifies it. */
  datatype FormatConfiguration = FormatConfiguration(id: string, name: string, options: Options)

  /** `editingId` and `editingName`: which format is being renamed, and the
      text typed so far. */
  datatype EditState = EditState(editingId: Option<string>, editingName: string)

  const NotEditing: EditState := EditState(None, "")

  predicate UniqueIds(fs: seq<FormatConfiguration>)
  {
    forall i, j :: 0 <= i < j < |fs| ==> fs[i].id != fs[j].id
  }

  predicate HasId(fs: seq<FormatConfiguration>, id: string)
  {
    exists i :: 0 <= i < |fs| && fs[i].id == id
  }

  /** The position of the first format with this id, or `|fs|` when none. */
  function IndexOfId(fs: seq<FormatConfiguration>, id: string): (j: nat)
    ensures j <= |fs|
    ensures j < |fs| ==> fs[j].id == id
    ensures forall k :: 0 <= k < j ==> fs[k].id != id
    decreases |fs|
  {
    if |fs| == 0 then 0 else if fs[0].id == id then 0 else 1 + IndexOfId(fs[1..], id)
  }

  /** The options a new format starts with: `{ dateStyle: "medium", timeStyle: "short" }`. */
  const NewFormatOptions: Options := [Entry(DateStyle, Str("medium")), Entry(TimeStyle, Str("short"))]

  /** `addFormat` with the generated id given: a new format named
      "Format <n+1>" with the default options goes last. */
  function AddFormat(fs: seq<FormatConfiguration>, id: string): (r: seq<FormatConfiguration>)
    ensures |r| == |fs| + 1 && r[..|fs|] == fs
    ensures r[|fs|].id == id && r[|fs|].options == NewFormatOptions
    ensures |r[|fs|].name| > 7 && r[|fs|].name[..7] == "Format "
    ensures Text.AllDigits(r[|fs|].name[7..]) && Text.ParseDigits(r[|fs|].name[7..]) == |fs| + 1
    ensures |r[|fs|].name| > 8 ==> r[|fs|].name[7] != '0'
  {
    Text.ParseNatToString(|fs| + 1);
    var name := "Format " + Text.NatToString(|fs| + 1);
    assert name[..7] == "Format ";
    assert name[7..] == Text.NatToString(|fs| + 1);
    fs + [FormatConfiguration(id, name, NewFormatOptions)]
  }

  /** `formats.filter(f => f.id !== id)`. */
  function WithoutId(fs: seq<FormatConfiguration>, id: string): (r: seq<FormatConfiguration>)
    ensures |r| <= |fs|
    decreases |fs|
  {
    if |fs| == 0 then []
    else if fs[0].id == id then WithoutId(fs[1..], id)
    else [fs[0]] + WithoutId(fs[1..], id)
  }

  lemma {:induction false} WithoutIdMembers(fs: seq<FormatConfiguration>, id: string)
    ensures forall f :: f in WithoutId(fs, id) <==> f in fs && f.id != id
    decreases |fs|
  {
    if |fs| > 0 {
      WithoutIdMembers(fs[1..], id);
      assert fs == [fs[0]] + fs[1..];
    }
  }

  /** Filtering a list whose formats all carry `id` leaves nothing. */
  lemma {:induction false} WithoutIdAllShared(fs: seq<FormatConfiguration>, id: string)
    requires forall k :: 0 <= k < |fs| ==> fs[k].id == id
    ensures WithoutId(fs, id) == []
    decreases |fs|
  {
    if |fs| > 0 {
      assert fs[0].id == id;
      WithoutIdAllShared(fs[1..], id);
    }
  }

  /** `removeFormat(id)`: nothing happens while only one format is left;
      otherwise every format with that id goes. */
  function RemoveFormat(fs: seq<FormatConfiguration>, id: string): (r: seq<FormatConfiguration>)
    ensures |fs| <= 1 ==> r == fs
    ensures |fs| > 1 ==> forall f :: f in r <==> f in fs && f.id != id
  {
    WithoutIdMembers(fs, id);
    if |fs| > 1 then WithoutId(fs, id) else fs
  }

  lemma {:induction false} WithoutAbsentId(fs: seq<FormatConfiguration>, id: string)
    requires !HasId(fs, id)
    ensures WithoutId(fs, id) == fs
    decreases |fs|
  {
    if |fs| > 0 {
      assert !HasId(fs[1..], id) by {
        forall i | 0 <= i < |fs[1..]| ensures fs[1..][i].id != id { assert fs[1..][i] == fs[i + 1]; }
      }
      WithoutAbsentId(fs[1..], id);
    }
  }

  /** Filtering a concatenation filters each part. */
  lemma {:induction false} WithoutIdConcat(a: seq<FormatConfiguration>, b: seq<FormatConfiguration>, id: string)
    ensures WithoutId(a + b, id) == WithoutId(a, id) + WithoutId(b, id)
    decreases |a|
  {
    if |a| == 0 {
      assert a + b == b;
    } else {
      assert (a + b)[1..] == a[1..] + b;
      WithoutIdConcat(a[1..], b, id);
    }
  }

  /** With unique ids, filtering out a present id removes exactly its one
      position and keeps the rest in order. */
  lemma WithoutUniqueId(fs: seq<FormatConfiguration>, id: string)
    requires UniqueIds(fs) && IndexOfId(fs, id) < |fs|
    ensures WithoutId(fs, id) == fs[..IndexOfId(fs, id)] + fs[IndexOfId(fs, id) + 1..]
  {
    var j := IndexOfId(fs, id);
    var before, x, after := fs[..j], fs[j], fs[j + 1..];
    assert fs == before + ([x] + after);
    assert WithoutId([x] + after, id) == WithoutId(after, id) by {
      assert ([x] + after)[1..] == after;
    }
    WithoutIdConcat(before, [x] + after, id);
    PrefixLacksId(fs, id);
    SuffixLacksId(fs, j);
  }

  /** Nothing before the first position of an id carries it. */
  lemma PrefixLacksId(fs: seq<FormatConfiguration>, id: string)
    ensures WithoutId(fs[..IndexOfId(fs, id)], id) == fs[..IndexOfId(fs, id)]
  {
    var before := fs[..IndexOfId(fs, id)];
    forall m | 0 <= m < |before| ensures before[m].id != id { assert before[m] == fs[m]; }
    WithoutAbsentId(before, id);
  }

  /** With unique ids, nothing after a format carries its id. */
  lemma SuffixLacksId(fs: seq<FormatConfiguration>, j: nat)
    requires UniqueIds(fs) && j < |fs|
    ensures WithoutId(fs[j + 1..], fs[j].id) == fs[j + 1..]
  {
    var after := fs[j + 1..];
    forall m | 0 <= m < |after| ensures after[m].id != fs[j].id { assert after[m] == fs[j + 1 + m]; }
    WithoutAbsentId(after, fs[j].id);
  }

  /** With unique ids, removing a format takes out exactly that one entry
      and keeps the rest in order, removing an unknown id changes nothing,
      and the list never drops below one format. */
  lemma RemoveFormatUniqueIds(fs: seq<FormatConfiguration>, id: string)
    requires UniqueIds(fs)
    ensures var j := IndexOfId(fs, id);
      RemoveFormat(fs, id) == if |fs| > 1 && j < |fs| then fs[..j] + fs[j + 1..] else fs
    ensures |fs| >= 1 ==> |RemoveFormat(fs, id)| >= 1
    ensures UniqueIds(RemoveFormat(fs, id))
  {
    var j := IndexOfId(fs, id);
    if |fs| > 1 {
      if j < |fs| {
        WithoutUniqueId(fs, id);
        SliceKeepsIdsUnique(fs, j);
      } else {
        WithoutAbsentId(fs, id);
      }
    }
  }

  /** Dropping one position of a list with distinct ids keeps them distinct. */
  lemma SliceKeepsIdsUnique(fs: seq<FormatConfiguration>, j: nat)
    requires UniqueIds(fs) && j < |fs|
    ensures UniqueIds(fs[..j] + fs[j + 1..])
  {
    var r := fs[..j] + fs[j + 1..];
    forall a, b | 0 <= a < b < |r| ensures r[a].id != r[b].id {
      var a' := if a < j then a else a + 1;
      var b' := if b < j then b else b + 1;
      assert r[a] == fs[a'] && r[b] == fs[b'];
    }
  }

  /** The floor of one relies on unique ids: two formats sharing an id are
      both removed, leaving none. */
  lemma RemoveFormatSharedIdEmpties(o: Options)
    ensures var f := FormatConfiguration("format-1", "A", o);
      var g := FormatConfiguration("format-1", "B", o);
      RemoveFormat([f, g], "format-1") == []
  {
    var f := FormatConfiguration("format-1", "A", o);
    var g := FormatConfiguration("format-1", "B", o);
    assert [f, g][1..] == [g];
    assert [g][1..] == [];
    assert WithoutId([g], "format-1") == [];
  }

  /** Adding a format with a fresh id and then removing it restores the list. */
  lemma AddThenRemove(fs: seq<FormatConfiguration>, id: string)
    requires |fs| >= 1 && !HasId(fs, id)
    ensures RemoveFormat(AddFormat(fs, id), id) == fs
  {
    var r := AddFormat(fs, id);
    assert r == fs + [r[|fs|]];
    WithoutAbsentId(fs, id);
    WithoutIdAppend(fs, r[|fs|], id);
  }

  lemma {:induction false} WithoutIdAppend(fs: seq<FormatConfiguration>, f: FormatConfiguration, id: string)
    ensures WithoutId(fs + [f], id) == WithoutId(fs, id) + WithoutId([f], id)
    decreases |fs|
  {
    if |fs| == 0 {
      assert fs + [f] == [f];
    } else {
      assert (fs + [f])[1..] == fs[1..] + [f];
      WithoutIdAppend(fs[1..], f, id);
    }
  }

  /** A fresh id keeps the ids unique. */
  lemma AddFormatKeepsIdsUnique(fs: seq<FormatConfiguration>, id: string)
    requires UniqueIds(fs) && !HasId(fs, id)
    ensures UniqueIds(AddFormat(fs, id))
  {
    var r := AddFormat(fs, id);
    forall i, j | 0 <= i < j < |r| ensures r[i].id != r[j].id {
      assert r[i] == fs[i];
      if j < |fs| { assert r[j] == fs[j]; }
    }
  }

  /** `updateFormat(id, options)`: every format with that id gets the new
      options; ids, names, order and all other formats stay as they were. */
  function UpdateFormat(fs: seq<FormatConfiguration>, id: string, o: Options): (r: seq<FormatConfiguration>)
    ensures |r| == |fs|
    ensures forall i :: 0 <= i < |fs| ==>
      r[i].id == fs[i].id && r[i].name == fs[i].name &&
      r[i].options == (if fs[i].id == id then o else fs[i].options)
  {
    seq(|fs|, i requires 0 <= i < |fs| => if fs[i].id == id then fs[i].(options := o) else fs[i])
  }

  /** Updating keeps ids unique, and the same update twice is the same as once. */
  lemma UpdateFormatProperties(fs: seq<FormatConfiguration>, id: string, o: Options)
    ensures UniqueIds(fs) ==> UniqueIds(UpdateFormat(fs, id, o))
    ensures UpdateFormat(UpdateFormat(fs, id, o), id, o) == UpdateFormat(fs, id, o)
    ensures HasId(fs, id) ==> UpdateFormat(fs, id, o)[IndexOfId(fs, id)].options == o
  {
  }

  /** `startEditingName(format)`. */
  function StartEditingName(f: FormatConfiguration): (e: EditState)
    ensures e.editingId == Some(f.id) && e.editingName == f.name
  {
    EditState(Some(f.id), f.name)
  }

  /** Typing in the name field (`setEditingName`). */
  function TypeName(e: EditState, text: string): EditState
  {
    e.(editingName := text)
  }

  /** `if (editingId)`: an edit is in progress when the id is set and not
      the empty string. */
  predicate IsEditing(e: EditState)
  {
    e.editingId.Some? && e.editingId.value != ""
  }

  /** Renames every format with this id. */
  function Rename(fs: seq<FormatConfiguration>, id: string, name: string): (r: seq<FormatConfiguration>)
    ensures |r| == |fs|
    ensures forall i :: 0 <= i < |fs| ==>
      r[i].id == fs[i].id && r[i].options == fs[i].options &&
      r[i].name == (if fs[i].id == id then name else fs[i].name)
  {
    seq(|fs|, i requires 0 <= i < |fs| => if fs[i].id == id then fs[i].(name := name) else fs[i])
  }

  /** `saveName()`: during an edit, rename the formats with the edited id
      and clear the edit state; otherwise change nothing at all. */
  function SaveName(fs: seq<FormatConfiguration>, e: EditState): (r: (seq<FormatConfiguration>, EditState))
    ensures IsEditing(e) ==> r.1 == NotEditing && |r.0| == |fs|
    ensures IsEditing(e) ==> forall i :: 0 <= i < |fs| ==>
      r.0[i].id == fs[i].id && r.0[i].options == fs[i].options &&
      r.0[i].name == (if fs[i].id == e.editingId.value then e.editingName else fs[i].name)
    ensures !IsEditing(e) ==> r == (fs, e)
  {
    if IsEditing(e) then (Rename(fs, e.editingId.value, e.editingName), NotEditing) else (fs, e)
  }

  /** Saving a name changes no id, so ids stay unique. */
  lemma SaveNameKeepsIds(fs: seq<FormatConfiguration>, e: EditState)
    requires UniqueIds(fs)
    ensures |SaveName(fs, e).0| == |fs| && UniqueIds(SaveName(fs, e).0)
  {
    var r := SaveName(fs, e).0;
    assert forall i :: 0 <= i < |r| ==> r[i].id == fs[i].id;
  }

  /** `cancelEdit()`: the edit state is cleared; the formats are untouched. */
  function CancelEdit(e: EditState): (r: EditState)
    ensures !IsEditing(r) && r.editingName == ""
  {
    NotEditing
  }

  /** Starting to rename a format and saving without typing changes no
      format, as long as ids are unique; the edit state ends cleared. */
  lemma StartThenSaveIsNoOp(fs: seq<FormatConfiguration>, i: nat)
    requires UniqueIds(fs) && i < |fs| && fs[i].id != ""
    ensures SaveName(fs, StartEditingName(fs[i])) == (fs, NotEditing)
  {
    var r := SaveName(fs, StartEditingName(fs[i])).0;
    forall j | 0 <= j < |fs| ensures r[j] == fs[j] {
      if j != i { assert fs[j].id != fs[i].id; }
      else { assert fs[i].(name := fs[i].name) == fs[i]; }
    }
    assert r == fs;
  }

  /** Starting to rename a format, typing a name and saving renames that
      format and only it, when ids are unique. */
  lemma RenameOnlyEdited(fs: seq<FormatConfiguration>, i: nat, name: string)
    requires UniqueIds(fs) && i < |fs| && fs[i].id != ""
    ensures var r := SaveName(fs, TypeName(StartEditingName(fs[i]), name));
      r.1 == NotEditing && |r.0| == |fs| &&
      r.0[i] == fs[i].(name := name) &&
      forall j :: 0 <= j < |fs| && j != i ==> r.0[j] == fs[j]
  {
    var r := SaveName(fs, TypeName(StartEditingName(fs[i]), name)).0;
    forall j | 0 <= j < |fs| && j != i ensures r[j] == fs[j] {
      assert fs[j].id != fs[i].id;
    }
  }
}
