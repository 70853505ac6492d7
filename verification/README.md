# 3D asset gallery: upload validator and file janitor

This project models the two pieces of logic in the gallery application that
decide something on their own. The rest of the application is request
handling, templates, routing and browser-side rendering.

- **Model-file validator** (`AssetForm.clean_file`, gallery/forms.py). It takes
  the uploaded file's name and finds its extension with POSIX
  `os.path.splitext`. It lower-cases that extension. It returns the file
  unchanged when the extension is `.glb` or `.gltf`. Otherwise it raises a
  validation error.
- **File janitor** (gallery/signals.py). `_delete_file` deletes a stored file
  by name if the store holds it, and does nothing for an empty reference.
  The post-delete handler releases the three file attributes it looks up. The
  pre-save handler loads the stored row for the instance's primary key. For
  each of those attributes, it releases the old file when the old name is
  non-empty and differs from the new one.

Modules:

- `PosixPath` (posix_path.dfy): `str.rfind`, `os.path.basename` and
  `os.path.splitext`. `Scan` is an independent left-to-right definition of the
  extension, and a lemma proves it always agrees with `SplitExt`.
- `Forms` (forms.dfy): lower-casing, `Accepts`, `CleanFile`, and the validator's
  properties. Acceptance gets an independent description, `HasModelSuffix`:
  the name ends in `.glb` or `.gltf` in any letter case, and the final path
  component before that ending is not made only of dots. A path whose final
  component is not made only of dots is a proper stem (`ProperStem`).
- `FormsExamples` (forms.dfy): worked cases, stated for every proper stem.
- `Signals` (signals.dfy): the blob store, `Release`, and both handlers.
  Each handler is written over a list of attribute names. `PostDelete` and
  `PreSave` instantiate them with the names the source looks up.
- `AssetFiles` (signals.dfy): the `Asset` model as declared, with file fields
  `file` and `image`. It holds the handlers' behaviour against that model and
  the corrected handlers (see Findings).

Representation choices:

- The blob store is a `set<string>` of stored names.
- An instance's file attributes are a `map<string, string>` from attribute
  name to file name. `getattr(instance, f, None)` becomes `FileName`, which
  yields `""` when the attribute is missing or the field is empty. Django file
  fields are truthy, and compare equal, by their name. So `""` faithfully
  stands for both `None` and an empty field.
- The ORM lookup `Asset.objects.get(pk=...)` becomes a map from primary key to
  stored file attributes. A missing key is `DoesNotExist`.
- `not instance.pk` is true for a missing key and for key `0`. `PkTruthy`
  models this.

## Model

| member | source | states |
|---|---|---|
| PosixPath.RFind | gallery/forms.py:16 | The index `splitext` searches from: -1 or an index holding that character |
| PosixPath.RFindIsLast | gallery/forms.py:16 | No occurrence of the character follows the index `RFind` returns, so -1 means it does not occur at all |
| PosixPath.SplitExt | gallery/forms.py:16 | `os.path.splitext`: the root and the extension together give back the path; the extension starts where `ExtStart` says (the last dot, when it is in the final component after a non-dot) |
| PosixPath.Ext | gallery/forms.py:16 | `os.path.splitext(name)[1]`, the part `clean_file` keeps; its shape and its agreement with `Scan` are the lemmas below |
| PosixPath.ExtShape | gallery/forms.py:16 | The extension is empty, or it starts at the path's last dot and continues with characters that are neither dots nor separators |
| PosixPath.ExtNonEmptyIff | gallery/forms.py:16 | The extension is non-empty exactly when the final component has a dot after some character that is not a dot, so leading dots never start an extension |
| PosixPath.ScanAgreesWithSplitExt | gallery/forms.py:16 | `splitext`'s extension equals the one found by an independent left-to-right reading of the path, for every path |
| PosixPath.ExtOfAppend | gallery/forms.py:16 | A dot-led, dot-free and separator-free suffix after a root whose final component is not all dots is exactly the extension, and the root is what remains |
| PosixPath.ExtRootProper | gallery/forms.py:16 | When there is an extension, the final component of the remaining root still has a character that is not a dot |
| PosixPath.ExtStartSameSeparators | gallery/forms.py:16 | Where the extension starts depends only on where the dots and separators are |
| PosixPath.NoDotExtEmpty | gallery/forms.py:16 | A final component without a dot gives an empty extension |
| PosixPath.DotFileExtEmpty | gallery/forms.py:16 | A final component of leading dots followed by dot-free text, such as `.glb`, gives an empty extension |
| Forms.Lower | gallery/forms.py:16 | `.lower()` applied character by character, with ASCII letters lower-cased (see Left out) |
| Forms.Accepts | gallery/forms.py:16-18 | The test `clean_file` applies: the lower-cased extension is one of `.glb`, `.gltf`; `AcceptsIff` characterises it independently |
| Forms.CleanFile | gallery/forms.py:14-20 | Returns the file unchanged exactly when its name ends in `.glb`/`.gltf` (any case) after a component that is not all dots; otherwise returns only the unsupported-format error |
| Forms.AcceptsIff | gallery/forms.py:16-19 | The splitext-lower-membership test accepts exactly the names with a case-insensitive `.glb`/`.gltf` ending after a proper stem |
| Forms.ValidExtensionShape | gallery/forms.py:16-17 | Any text whose lower-case form is `.glb` or `.gltf` is one dot followed by characters that lower-case to ASCII letters, so it holds no further dot or separator |
| Forms.AcceptsCaseInsensitive | gallery/forms.py:16 | Two names that lower-case to the same text are both accepted or both rejected |
| Forms.AcceptsLowered | gallery/forms.py:16 | Lower-casing the whole name never changes the verdict |
| Forms.LastSuffixDecides | gallery/forms.py:16-19 | After a proper root, whatever dots the root contains, only the last dot-led suffix decides acceptance |
| Forms.NoDotRejected | gallery/forms.py:16-19 | A name whose final component has no dot yields the validation error |
| Forms.DotFileRejected | gallery/forms.py:16-19 | A dot-file name such as `.glb` or `models/..gltf` yields the validation error |
| FormsExamples.ExampleCase | gallery/forms.py:16-18 | `stem.GLB` and `stem.GlTf` are accepted for every proper stem |
| FormsExamples.ExampleLastDotAccepted | gallery/forms.py:16-18 | `stem.zip.glb` is accepted |
| FormsExamples.ExampleLastDotRejected | gallery/forms.py:16-19 | `stem.glb.zip` is rejected |
| Signals.FileName | gallery/signals.py:17-19 | `getattr(instance, field, None)` reduced to the file's name: "" for a missing attribute or an empty field, both of which `_delete_file` and the pre-save test treat as falsy |
| Signals.PkTruthy | gallery/signals.py:23 | `not instance.pk` fails exactly when the key is present and non-zero |
| Signals.Release | gallery/signals.py:7-12 | An empty reference leaves the store unchanged; otherwise the name is absent afterwards and every other stored name remains |
| Signals.ReleaseAbsent | gallery/signals.py:10-12 | Releasing a name the store does not hold changes nothing |
| Signals.ReleaseIdempotent | gallery/signals.py:7-12 | Releasing a name twice equals releasing it once |
| Signals.ReleaseCommutes | gallery/signals.py:7-12 | Two releases give the same store in either order |
| Signals.ReleaseAll | gallery/signals.py:17-19 | Releasing each listed field's file in turn removes exactly the non-empty names those fields refer to |
| Signals.ReleaseReplaced | gallery/signals.py:30-34 | Releasing each replaced field's old file in turn removes exactly the old names that are non-empty and differ from the new ones |
| Signals.OnDelete | gallery/signals.py:14-19 | Post-delete over any attribute list: a stored name survives exactly when no listed attribute refers to it |
| Signals.OnSave | gallery/signals.py:21-34 | Pre-save over any attribute list: no change without a truthy key or a stored row; otherwise exactly the replaced old names are removed |
| Signals.PostDelete | gallery/signals.py:14-19 | After the handler, no non-empty `model_file`/`thumbnail`/`preview` name of the instance remains, and every other name is kept |
| Signals.PreSave | gallery/signals.py:21-34 | No change when the key is falsy or has no stored row; otherwise exactly the replaced old names of the three attributes are removed |
| Signals.PostDeleteIdempotent | gallery/signals.py:14-19 | Running the post-delete handler twice equals running it once |
| Signals.PostDeleteWithoutAttributes | gallery/signals.py:17-19 | An instance with none of the three attributes leaves the store unchanged on delete |
| Signals.PreSaveRemovesIff | gallery/signals.py:30-34 | With a stored row, a stored name is removed exactly when some attribute held it as a non-empty old file and now names a different one |
| Signals.PreSaveOnlyOldNames | gallery/signals.py:30-34 | Pre-save never adds names, and removes only names that were some attribute's old file in an existing stored row |
| Signals.PreSaveKeepsUnchanged | gallery/signals.py:30-34 | When the old files are distinct, an attribute whose reference is unchanged keeps its file |
| Signals.PreSaveSwapDeletesBoth | gallery/signals.py:30-34 | Comparison is per attribute: swapping two attributes' files deletes both files although the instance still refers to them |
| Signals.PreSaveWithoutAttributes | gallery/signals.py:30-34 | A stored row with none of the three attributes leaves the store unchanged on save |
| Signals.PreSaveIdempotent | gallery/signals.py:21-34 | Running pre-save twice against the same stored row equals running it once |
| AssetFiles.DeclaredReferenced | gallery/models.py:8-9 | A declared asset's file fields refer to exactly its non-empty `file` and `image` names |
| AssetFiles.HandlersIgnoreDeclaredAsset | gallery/signals.py:14-34 | For an asset as declared, neither handler changes the store |
| AssetFiles.DeletedAssetLeavesFile | gallery/signals.py:14-19 | As written, deleting an asset leaves its stored model file in the store |
| AssetFiles.ReplacedImageLeftBehind | gallery/signals.py:21-34 | As written, saving an asset with a new image leaves the old image in the store |
| AssetFiles.DeleteAssetFiles | gallery/signals.py:14-19 | Corrected post-delete: the asset's non-empty `file` and `image` are gone afterwards and every other name is kept |
| AssetFiles.ReplaceAssetFiles | gallery/signals.py:21-34 | Corrected pre-save: an old `file`/`image` that is non-empty and replaced is deleted; nothing else is deleted, and nothing at all without a truthy key and a stored row |
| AssetFiles.ReplacingImageKeepsFile | gallery/signals.py:30-34 | Corrected pre-save: replacing only the image keeps the unchanged model file |

## Left out

- Lower-casing covers ASCII letters only. Python's `str.lower` also lower-cases other letters. No character outside ASCII lower-cases to a letter of `.glb` or `.gltf`, so acceptance is the same either way.
- Only POSIX `splitext` is modelled. Windows path rules are not.
- Django's handling of the name before `clean_file` is not modelled. It keeps only the basename and truncates names to 255 characters. `Ext` accepts any path, so it covers those names too.
- `clean_file` is reached only when the required file field has already produced a file. The missing-file case belongs to Django's field cleaning and is not modelled.
- The bytes of the upload are carried in the model but never inspected, as in the source.
- Signal registration and dispatch (`@receiver`, `sender=Asset`) are not modelled. The handlers are plain functions that their call sites invoke.
- The storage backend is a set of names. Its `exists`/`delete` calls are assumed atomic, and I/O errors are not modelled.
- The ORM lookup is a map from key to stored row. Database errors other than `DoesNotExist` are not modelled.
- An attribute that exists but holds something other than a file field is not modelled.
- The JavaScript viewer and thumbnail capture, the views, URL routing, templates and admin are not modelled. They are rendering and framework wiring.
- The routes `regen-previews/` and `save-preview/<id>/` name views that do not exist. So data-URL thumbnail decoding, preview regeneration, parameterised search and ordering, and pagination have no code here to model. The fixed newest-first listing order and the admin's search fields are framework configuration and are not modelled.
- `max_length`, `upload_to` and `auto_now_add` on the model are storage configuration enforced by Django, and are not modelled.

## Findings

| source | as written | input that shows it | evidently intended | confidence | as-written member | corrected member |
|---|---|---|---|---|---|---|
| gallery/signals.py:14-19 | the post-delete handler releases `model_file`, `thumbnail` and `preview`, but `Asset` declares `file` and `image` (gallery/models.py:8-9); every lookup yields `None`, so nothing is deleted | deleting an asset whose `file` is `3d_assets/chair.glb` while the store holds that name: the name is still stored afterwards | release the declared `file` and `image`, as the handler's own comment asks (substitute the model's field names) | high; not executed | AssetFiles.DeletedAssetLeavesFile | AssetFiles.DeleteAssetFiles |
| gallery/signals.py:21-34 | the pre-save handler compares the same three absent attributes, so a replaced file is never released | saving asset 1 with image `thumbnails/b.png` when its stored row has `thumbnails/a.png`, which the store holds: `thumbnails/a.png` is still stored afterwards | compare and release the declared `file` and `image` | high; not executed | AssetFiles.ReplacedImageLeftBehind | AssetFiles.ReplaceAssetFiles |
