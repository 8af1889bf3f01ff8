# Favourite image list

A Blender add-on keeps a list of favourite images on each scene. It lets the
user switch the image editor to any of them with one click. The list is the
scene's `fave_image_list` collection. Each entry holds one image name. Four
operators act on the list:

- add appends the image the editor shows;
- remove deletes the entry at an index, and later entries shift down;
- clean scans the list and removes entries whose image is no longer in the
  host's image table;
- set current makes a named image the editor's active image, if the image
  table has it.

The model has three files:

- `wrappers.dfy` holds `Option`.
- `fave_list.dfy` (module `FaveList`) models the list as a value, a
  `seq<FaveImage>`. It holds the functions that specify the operators and the
  lemmas about them.
- `operators.dfy` (module `Operators`) holds the class `EditorContext`. Its
  fields are the state the operators reach through Blender's context: the
  scene's collection (`faveImageList`), the names in `bpy.data.images`
  (`images`) and the name of the editor's `space_data.image`
  (`activeImage`). Each operator's `execute` is a method that updates these
  fields in place. Each `poll` that gates an operator is a predicate, and the
  method requires it. `Session` is a client method: a typical sequence of
  operator calls, whose assertions about each result Dafny proves.

Clean follows the source loop exactly. It walks the list by index. When the
entry at index `i` is missing, it removes that entry through the remove
operator. Then it moves on to `i + 1`, whether or not it removed anything.
So the entry that slides into the vacated slot is never examined. The result
is specified as the survivors of `ScanMask`, a position-by-position mask.
`ScanMaskAt` describes the mask completely: an entry survives exactly when its
image is available or the entry before it was dropped. From this the model
proves the following:

- the survivors keep their order;
- every available entry survives;
- only missing entries are removed.

It does not claim that every missing entry is removed. That holds exactly
when no two neighbouring entries are both missing (`ScanCleanIsFilterIff`).
See "## Findings".

Three details of the code that the model keeps as written:

- Clean's doc-comment (`__init__.py:81`) says it cleans the favourites of
  images that are not available, but the loop (`__init__.py:91-94`) keeps
  some of them (see above). The model states what the loop does and gives
  the remove-every-missing-entry behaviour as the separate method
  `CleanAllFaves`.
- Set current is driven by its `image_name` string property
  (`__init__.py:104-107`), which the panel fills with the entry's own name
  (`__init__.py:138`); it takes a name, not a position in the list.
- Remove (`__init__.py:76`) does not check its index itself; it relies on
  the collection's own bounds check. Blender's collection `remove` refuses
  an index outside `0 <= index < length`: it raises and leaves the
  collection as it was. The model returns `IndexOutOfRange` in that case,
  with the list unchanged.

## Model

| member | source | states |
|---|---|---|
| `Operators.EditorContext.constructor` | __init__.py:159 | a scene's favourites list starts empty; the image table and the active image are the host's, the active image being one of the table's or none |
| `Operators.EditorContext.AddToFaves` | __init__.py:51-58 | offered only while the editor shows an image; appends exactly one entry, naming that image, at the end; length grows by one, earlier entries, the image table and the active image are unchanged |
| `FaveList.Removed` | __init__.py:76 | removing position `k`: length shrinks by one, entries before `k` stay put, entries after `k` shift down by one |
| `FaveList.RemovedUndoesAppend` | __init__.py:55-77 | removing the last entry right after an add gives back the list as it was before the add |
| `Operators.EditorContext.RemoveFromFaves` | __init__.py:75-77 | an index inside the list: `Finished` and the list becomes `Removed(list, index)`; any other index: `IndexOutOfRange`, list unchanged; the image table and the active image never change |
| `Operators.EditorContext.CleanFaves` | __init__.py:90-95 | the forward remove-while-iterating loop leaves exactly the survivors of `ScanMask`, in order; the image table and the active image are unchanged |
| `FaveList.ScanMaskAt` | __init__.py:91-94 | an entry survives clean if and only if its image is available or the entry before it was dropped |
| `FaveList.ScanDropsOnlyUnavailable` | __init__.py:91-94 | a dropped entry's image is missing (so every available entry survives), and the entry after a dropped one always survives |
| `FaveList.ScanCleanAllAvailable` | __init__.py:90-95 | when every favourite's image is available, clean leaves the list unchanged |
| `FaveList.ScanCleanKeepsAvailable` | __init__.py:91-92 | the available entries after clean are those before it, in the same order and number |
| `FaveList.ScanCleanRemovesOnlyUnavailable` | __init__.py:91-94 | clean adds no entry, and every entry it removes has a missing image |
| `FaveList.ScanCleanIsFilterIff` | __init__.py:80-95 | clean leaves exactly the available entries if and only if no two neighbouring entries both have missing images |
| `FaveList.ScanMissesAdjacentUnavailable` | __init__.py:80-95 | with entries A, x, y, B and only A and B in the image table, clean leaves A, y, B |
| `FaveList.KeepAvailable` | __init__.py:81 | the available part of a list holds only entries of the list whose image is available, and is no longer than the list |
| `FaveList.KeepAvailableIdempotent` | __init__.py:81 | taking the available part a second time changes nothing |
| `Operators.EditorContext.CleanAllFaves` | __init__.py:81 | the corrected clean leaves exactly the available entries, in order; the image table and the active image are unchanged |
| `Operators.EditorContext.SetCurrentImage` | __init__.py:109-118 | offered only while the favourites list is non-empty; a name in the image table becomes the active image; a missing name is reported and leaves the active image as it was; the list and the image table never change, and an active image from the image table stays one |

## Left out

- Registering and unregistering the classes with Blender, and attaching `fave_image_list` to `Scene` (__init__.py:146-168): this is host lifecycle glue. The constructor stands for a new scene's empty collection.
- The panel's drawing and layout (__init__.py:121-139): this is user-interface rendering. The model relies only on the fact that the panel passes each entry's own index to remove and its own name to set current.
- `bl_info`, `bl_idname`, `bl_label` and `bl_options` (__init__.py:1-11 and the operator headers): these are declarative host configuration.
- The `context.area.type == 'IMAGE_EDITOR'` test in every `poll`: the host checks it. The model assumes the operators run inside an image editor.
- The `print` diagnostic in set current: this is output. It is modelled as the out-parameter `reported`, with no change of state.
- How `bpy.data.images` stores images: the model reduces the table to the set of image names. An entry refers to its image by name only.
- How Blender's collection iterator behaves while the collection changes under it: clean is modelled with Python list semantics. The index goes up by one per step, and the loop stops once the index reaches the current length.
- `IntProperty`'s 32-bit range for the remove index: every index outside the list is refused either way, so the width has no effect.

## Findings

| source | as written | input that shows it | evidently intended | confidence | as-written member | corrected member |
|---|---|---|---|---|---|---|
| __init__.py:90-95 | clean removes the missing entry at `index` and then advances, so the entry that slides into the vacated slot is never examined | entries A, x, y, B with only A and B in the image table: clean leaves A, y, B | the operator's description (line 81) says it cleans out the images that are not available, so every missing entry should go | not executed | `FaveList.ScanMissesAdjacentUnavailable` | `Operators.EditorContext.CleanAllFaves` |
