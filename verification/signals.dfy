/**
 The file janitor: the two signal handlers that delete stored files when an
 asset row is deleted or one of its file fields is replaced.

 The blob store (`default_storage`) is the set of names it holds. A model
 instance is seen through `getattr(instance, field, None)`: its file
 attributes map attribute names to stored file names, "" standing for an
 empty file field, and an attribute the instance does not have is not a
 key. Both a missing attribute (`None`) and an empty field are falsy, and
 file fields compare by name, so "" models both.
 */
module Signals {

  datatype Option<T> = None | Some(value: T)

  /** Names of the files held by the blob store. */
  type Store = set<string>

  /** File attributes of an instance: attribute name to stored file name. */
  type FileAttrs = map<string, string>

  /** A model instance as a handler receives it. */
  datatype Instance = Instance(pk: Option<int>, files: FileAttrs)

  /** Stored rows by primary key, as `Asset.objects.get(pk=...)` finds them. */
  type Rows = map<int, FileAttrs>

  /** The file attributes both handlers look up. */
  const HandledFields: seq<string> := ["model_file", "thumbnail", "preview"]

  /** `getattr(instance, field, None)` reduced to the file's name: "" when absent or empty. */
  function FileName(files: FileAttrs, field: string): string {
    if field in files then files[field] else ""
  }

  /** `not instance.pk` is false: the key is present and not zero. */
  predicate PkTruthy(pk: Option<int>) {
    pk.Some? && pk.value != 0
  }

  /**
   `_delete_file`: nothing for an empty reference; otherwise the named file
   is deleted if the store holds it, and nothing else changes.
   */
  function Release(store: Store, name: string): (r: Store)
    ensures name == "" ==> r == store
    ensures name != "" ==> name !in r
    ensures r <= store
    ensures forall x :: x in store && x != name ==> x in r
  {
    if name == "" then store
    else if name in store then store - {name}
    else store
  }

  /** The non-empty names that the given fields of `files` refer to. */
  function Referenced(files: FileAttrs, fields: seq<string>): set<string> {
    set i | 0 <= i < |fields| && FileName(files, fields[i]) != "" :: FileName(files, fields[i])
  }

  /** The field's stored file is about to be replaced: its old name is non-empty and differs from the new one. */
  predicate Changed(before: FileAttrs, after: FileAttrs, field: string) {
    FileName(before, field) != "" && FileName(before, field) != FileName(after, field)
  }

  /** The old names of the given fields whose file is being replaced. */
  function Replaced(before: FileAttrs, after: FileAttrs, fields: seq<string>): set<string> {
    set i | 0 <= i < |fields| && Changed(before, after, fields[i]) :: FileName(before, fields[i])
  }

  lemma ReferencedCons(files: FileAttrs, fields: seq<string>)
    requires fields != []
    ensures Referenced(files, fields) ==
      (if FileName(files, fields[0]) == "" then {} else {FileName(files, fields[0])})
      + Referenced(files, fields[1..])
  {
    var head := if FileName(files, fields[0]) == "" then {} else {FileName(files, fields[0])};
    forall x | x in Referenced(files, fields)
      ensures x in head + Referenced(files, fields[1..])
    {
      var i :| 0 <= i < |fields| && FileName(files, fields[i]) != "" && x == FileName(files, fields[i]);
      if i > 0 {
        assert fields[1..][i - 1] == fields[i];
      }
    }
    forall x | x in Referenced(files, fields[1..])
      ensures x in Referenced(files, fields)
    {
      var i :| 0 <= i < |fields[1..]| && FileName(files, fields[1..][i]) != "" && x == FileName(files, fields[1..][i]);
      assert fields[1..][i] == fields[i + 1];
    }
  }

  lemma ReplacedCons(before: FileAttrs, after: FileAttrs, fields: seq<string>)
    requires fields != []
    ensures Replaced(before, after, fields) ==
      (if Changed(before, after, fields[0]) then {FileName(before, fields[0])} else {})
      + Replaced(before, after, fields[1..])
  {
    var head := if Changed(before, after, fields[0]) then {FileName(before, fields[0])} else {};
    forall x | x in Replaced(before, after, fields)
      ensures x in head + Replaced(before, after, fields[1..])
    {
      var i :| 0 <= i < |fields| && Changed(before, after, fields[i]) && x == FileName(before, fields[i]);
      if i > 0 {
        assert fields[1..][i - 1] == fields[i];
      }
    }
    forall x | x in Replaced(before, after, fields[1..])
      ensures x in Replaced(before, after, fields)
    {
      var i :| 0 <= i < |fields[1..]| && Changed(before, after, fields[1..][i]) && x == FileName(before, fields[1..][i]);
      assert fields[1..][i] == fields[i + 1];
    }
  }

  /** Every non-empty name of a listed field is referenced. */
  lemma ReferencedMembers(files: FileAttrs, fields: seq<string>)
    ensures forall f :: f in fields && FileName(files, f) != "" ==> FileName(files, f) in Referenced(files, fields)
  {
    forall f | f in fields && FileName(files, f) != ""
      ensures FileName(files, f) in Referenced(files, fields)
    {
      var i :| 0 <= i < |fields| && fields[i] == f;
    }
  }

  /** Releasing each field's file in turn removes exactly the names the fields refer to. */
  function ReleaseAll(store: Store, files: FileAttrs, fields: seq<string>): (r: Store)
    ensures r == store - Referenced(files, fields)
    decreases |fields|
  {
    if fields == [] then store
    else
      ReferencedCons(files, fields);
      ReleaseAll(Release(store, FileName(files, fields[0])), files, fields[1..])
  }

  /** Releasing each replaced field's old file in turn removes exactly the replaced names. */
  function ReleaseReplaced(store: Store, before: FileAttrs, after: FileAttrs, fields: seq<string>): (r: Store)
    ensures r == store - Replaced(before, after, fields)
    decreases |fields|
  {
    if fields == [] then store
    else
      ReplacedCons(before, after, fields);
      var next := if Changed(before, after, fields[0]) then Release(store, FileName(before, fields[0])) else store;
      ReleaseReplaced(next, before, after, fields[1..])
  }

  /** Post-delete handler over a list of file attributes. */
  function OnDelete(store: Store, instance: Instance, fields: seq<string>): (r: Store)
    ensures r <= store
    ensures forall x :: x in store ==> (x in r <==> x !in Referenced(instance.files, fields))
  {
    ReleaseAll(store, instance.files, fields)
  }

  /**
   Pre-save handler over a list of file attributes: nothing without a truthy
   primary key or without a stored row; otherwise each field whose before file
   is being replaced releases that before file.
   */
  function OnSave(store: Store, rows: Rows, instance: Instance, fields: seq<string>): (r: Store)
    ensures !PkTruthy(instance.pk) || instance.pk.value !in rows ==> r == store
    ensures PkTruthy(instance.pk) && instance.pk.value in rows ==>
      r == store - Replaced(rows[instance.pk.value], instance.files, fields)
  {
    if !PkTruthy(instance.pk) then store
    else if instance.pk.value !in rows then store
    else ReleaseReplaced(store, rows[instance.pk.value], instance.files, fields)
  }

  /** `asset_files_delete_on_object_delete`, over the attributes it looks up. */
  function PostDelete(store: Store, instance: Instance): (r: Store)
    ensures r <= store
    ensures forall f :: f in HandledFields && FileName(instance.files, f) != "" ==>
      FileName(instance.files, f) !in r
    ensures forall x :: x in store && x !in Referenced(instance.files, HandledFields) ==> x in r
  {
    ReferencedMembers(instance.files, HandledFields);
    OnDelete(store, instance, HandledFields)
  }

  /** `asset_files_delete_on_change`, over the attributes it looks up. */
  function PreSave(store: Store, rows: Rows, instance: Instance): (r: Store)
    ensures !PkTruthy(instance.pk) || instance.pk.value !in rows ==> r == store
    ensures PkTruthy(instance.pk) && instance.pk.value in rows ==>
      r == store - Replaced(rows[instance.pk.value], instance.files, HandledFields)
  {
    OnSave(store, rows, instance, HandledFields)
  }

  /** Releasing an absent name changes nothing. */
  lemma ReleaseAbsent(store: Store, name: string)
    requires name !in store
    ensures Release(store, name) == store
  {
  }

  /** Releasing a name twice is the same as releasing it once. */
  lemma ReleaseIdempotent(store: Store, name: string)
    ensures Release(Release(store, name), name) == Release(store, name)
  {
  }

  /** Releases of two names may happen in either order. */
  lemma ReleaseCommutes(store: Store, a: string, b: string)
    ensures Release(Release(store, a), b) == Release(Release(store, b), a)
  {
  }

  /** Running the post-delete handler a second time deletes nothing more. */
  lemma PostDeleteIdempotent(store: Store, instance: Instance)
    ensures PostDelete(PostDelete(store, instance), instance) == PostDelete(store, instance)
  {
    var once := PostDelete(store, instance);
    var twice := PostDelete(once, instance);
    var refs := Referenced(instance.files, HandledFields);
    assert OnDelete(once, instance, HandledFields) == once - refs;
    assert once == store - refs;
    assert twice == once;
  }

  /** An instance with none of the looked-up attributes leaves the store untouched on delete. */
  lemma PostDeleteWithoutAttributes(store: Store, instance: Instance)
    requires forall f :: f in HandledFields ==> f !in instance.files
    ensures PostDelete(store, instance) == store
  {
    forall i | 0 <= i < |HandledFields|
      ensures FileName(instance.files, HandledFields[i]) == ""
    {
      assert HandledFields[i] in HandledFields;
    }
    assert Referenced(instance.files, HandledFields) == {};
  }

  /**
   Pre-save with a stored row: a stored name disappears exactly when some
   looked-up field held it as its old file and is being given a different one.
   */
  lemma PreSaveRemovesIff(store: Store, rows: Rows, instance: Instance, x: string)
    requires PkTruthy(instance.pk) && instance.pk.value in rows && x in store
    ensures x !in PreSave(store, rows, instance) <==>
      exists f :: f in HandledFields && Changed(rows[instance.pk.value], instance.files, f)
        && FileName(rows[instance.pk.value], f) == x
  {
    var before := rows[instance.pk.value];
    if x !in PreSave(store, rows, instance) {
      assert x in Replaced(before, instance.files, HandledFields);
      var i :| 0 <= i < |HandledFields| && Changed(before, instance.files, HandledFields[i])
        && x == FileName(before, HandledFields[i]);
      assert HandledFields[i] in HandledFields;
    }
    if exists f :: f in HandledFields && Changed(before, instance.files, f) && FileName(before, f) == x {
      var f :| f in HandledFields && Changed(before, instance.files, f) && FileName(before, f) == x;
      var i :| 0 <= i < |HandledFields| && HandledFields[i] == f;
      assert x in Replaced(before, instance.files, HandledFields);
    }
  }

  /** Pre-save only ever deletes names that were the old file of some looked-up field. */
  lemma PreSaveOnlyOldNames(store: Store, rows: Rows, instance: Instance)
    ensures PreSave(store, rows, instance) <= store
    ensures forall x :: x in store && x !in PreSave(store, rows, instance) ==>
      PkTruthy(instance.pk) && instance.pk.value in rows
      && exists f :: f in HandledFields && FileName(rows[instance.pk.value], f) == x
  {
    forall x | x in store && x !in PreSave(store, rows, instance)
      ensures PkTruthy(instance.pk) && instance.pk.value in rows
      ensures exists f :: f in HandledFields && FileName(rows[instance.pk.value], f) == x
    {
      PreSaveRemovesIff(store, rows, instance, x);
    }
  }

  /**
   When the old row's looked-up fields name distinct files, a field whose
   reference is unchanged keeps its file.
   */
  lemma PreSaveKeepsUnchanged(store: Store, rows: Rows, instance: Instance, f: string)
    requires PkTruthy(instance.pk) && instance.pk.value in rows
    requires f in HandledFields
    requires FileName(rows[instance.pk.value], f) == FileName(instance.files, f)
    requires forall g, h ::
      (g in HandledFields && h in HandledFields && g != h && FileName(rows[instance.pk.value], g) != "") ==>
      FileName(rows[instance.pk.value], g) != FileName(rows[instance.pk.value], h)
    requires FileName(instance.files, f) in store
    ensures FileName(instance.files, f) in PreSave(store, rows, instance)
  {
    PreSaveRemovesIff(store, rows, instance, FileName(instance.files, f));
  }

  /**
   References are compared field by field: when two fields swap their files,
   both files are deleted although the saved instance still refers to them.
   */
  lemma PreSaveSwapDeletesBoth(store: Store, rows: Rows, instance: Instance, a: string, b: string)
    requires PkTruthy(instance.pk) && instance.pk.value in rows
    requires a != "" && b != "" && a != b
    requires FileName(rows[instance.pk.value], "model_file") == a
    requires FileName(rows[instance.pk.value], "thumbnail") == b
    requires FileName(instance.files, "model_file") == b
    requires FileName(instance.files, "thumbnail") == a
    ensures a !in PreSave(store, rows, instance) && b !in PreSave(store, rows, instance)
  {
    var before := rows[instance.pk.value];
    assert Changed(before, instance.files, HandledFields[0]);
    assert Changed(before, instance.files, HandledFields[1]);
    assert a in Replaced(before, instance.files, HandledFields);
    assert b in Replaced(before, instance.files, HandledFields);
  }

  /** A stored row with none of the looked-up attributes makes pre-save leave the store untouched. */
  lemma PreSaveWithoutAttributes(store: Store, rows: Rows, instance: Instance)
    requires PkTruthy(instance.pk) ==> instance.pk.value in rows ==>
      forall f :: f in HandledFields ==> f !in rows[instance.pk.value]
    ensures PreSave(store, rows, instance) == store
  {
    if PkTruthy(instance.pk) && instance.pk.value in rows {
      var before := rows[instance.pk.value];
      forall i | 0 <= i < |HandledFields|
        ensures FileName(before, HandledFields[i]) == ""
      {
        assert HandledFields[i] in HandledFields;
      }
      assert Replaced(before, instance.files, HandledFields) == {};
    }
  }

  /** Running pre-save a second time against the same stored row deletes nothing more. */
  lemma PreSaveIdempotent(store: Store, rows: Rows, instance: Instance)
    ensures PreSave(PreSave(store, rows, instance), rows, instance) == PreSave(store, rows, instance)
  {
  }
}

/**
 The handlers against the `Asset` model as it is declared, whose file
 fields are `file` and `image`, not the `model_file`, `thumbnail` and
 `preview` the handlers look up. As written, both handlers therefore do
 nothing for a real asset. `DeleteAssetFiles` and `ReplaceAssetFiles` run
 the same handlers over the declared fields, which is what the handlers'
 own instruction to substitute the model's field names asks for.
 */
module AssetFiles {
  import opened Signals

  /** The declared model: primary key, title, uploaded model file and optional preview image. */
  datatype Asset = Asset(id: Option<int>, title: string, file: string, image: string)

  /** The declared file fields. */
  const DeclaredFileFields: seq<string> := ["file", "image"]

  function Files(a: Asset): FileAttrs {
    map["file" := a.file, "image" := a.image]
  }

  function AsInstance(a: Asset): Instance {
    Instance(a.id, Files(a))
  }

  function AssetRows(rows: map<int, Asset>): Rows {
    map k | k in rows :: Files(rows[k])
  }

  /** As written: neither handler touches the store for a declared asset. */
  lemma HandlersIgnoreDeclaredAsset(store: Store, rows: map<int, Asset>, a: Asset)
    ensures PostDelete(store, AsInstance(a)) == store
    ensures PreSave(store, AssetRows(rows), AsInstance(a)) == store
  {
    PostDeleteWithoutAttributes(store, AsInstance(a));
    PreSaveWithoutAttributes(store, AssetRows(rows), AsInstance(a));
  }

  /** As written: the stored model file of a deleted asset stays in the store. */
  lemma DeletedAssetLeavesFile(store: Store, a: Asset)
    requires a.file != "" && a.file in store
    ensures a.file in PostDelete(store, AsInstance(a))
  {
    HandlersIgnoreDeclaredAsset(store, map[], a);
  }

  /** As written: an asset saved with a new image leaves its old image in the store. */
  lemma ReplacedImageLeftBehind(store: Store, rows: map<int, Asset>, a: Asset)
    requires PkTruthy(a.id) && a.id.value in rows
    requires rows[a.id.value].image != "" && rows[a.id.value].image != a.image
    requires rows[a.id.value].image in store
    ensures rows[a.id.value].image in PreSave(store, AssetRows(rows), AsInstance(a))
  {
    HandlersIgnoreDeclaredAsset(store, rows, a);
  }

  lemma DeclaredReferenced(a: Asset)
    ensures Referenced(Files(a), DeclaredFileFields) == {a.file, a.image} - {""}
  {
    ReferencedCons(Files(a), DeclaredFileFields);
    ReferencedCons(Files(a), DeclaredFileFields[1..]);
    assert DeclaredFileFields[1..][1..] == [];
  }

  lemma DeclaredReplaced(before: Asset, a: Asset)
    ensures Replaced(Files(before), Files(a), DeclaredFileFields) ==
      (if before.file != "" && before.file != a.file then {before.file} else {})
      + (if before.image != "" && before.image != a.image then {before.image} else {})
  {
    ReplacedCons(Files(before), Files(a), DeclaredFileFields);
    ReplacedCons(Files(before), Files(a), DeclaredFileFields[1..]);
    assert DeclaredFileFields[1..][1..] == [];
  }

  /** Corrected post-delete: the deleted asset's file and image are gone, every other name stays. */
  function DeleteAssetFiles(store: Store, a: Asset): (r: Store)
    ensures r <= store
    ensures a.file != "" ==> a.file !in r
    ensures a.image != "" ==> a.image !in r
    ensures forall x :: x in store && x != a.file && x != a.image ==> x in r
  {
    DeclaredReferenced(a);
    OnDelete(store, AsInstance(a), DeclaredFileFields)
  }

  /**
   Corrected pre-save: against the stored row, a field's old file is deleted
   when it is non-empty and the field now names another file; nothing else
   is deleted, and nothing at all without a truthy key and a stored row.
   */
  function ReplaceAssetFiles(store: Store, rows: map<int, Asset>, a: Asset): (r: Store)
    ensures r <= store
    ensures !PkTruthy(a.id) || a.id.value !in rows ==> r == store
    ensures PkTruthy(a.id) && a.id.value in rows ==>
      var before := rows[a.id.value];
      && (before.file != "" && before.file != a.file ==> before.file !in r)
      && (before.image != "" && before.image != a.image ==> before.image !in r)
      && forall x :: x in store && x !in r ==>
        (x == before.file && x != a.file) || (x == before.image && x != a.image)
  {
    if PkTruthy(a.id) && a.id.value in rows then
      DeclaredReplaced(rows[a.id.value], a);
      OnSave(store, AssetRows(rows), AsInstance(a), DeclaredFileFields)
    else
      OnSave(store, AssetRows(rows), AsInstance(a), DeclaredFileFields)
  }

  /** Corrected pre-save: replacing only the image keeps the model file. */
  lemma ReplacingImageKeepsFile(store: Store, rows: map<int, Asset>, a: Asset)
    requires PkTruthy(a.id) && a.id.value in rows
    requires rows[a.id.value].file == a.file && a.file in store
    requires a.file != rows[a.id.value].image
    ensures a.file in ReplaceAssetFiles(store, rows, a)
  {
  }
}
