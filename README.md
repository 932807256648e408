# AR photo screen: a verified model of its bookkeeping

The app places photos from the library as framed planes in a camera-tracked 3D
scene. The AR screen (`ARPhotoViewController`) keeps five pieces of state:

- the ordered list of placed nodes (`photoNodes`);
- the saved records (`savedPhotoData`);
- the node selected for manipulation;
- the image waiting to be placed;
- each node's highlight, which is its border colour.

Taps, long presses, pinches and rotations change this state. So do the save,
clear and add-photo buttons and the delete and clear confirmations. Saving
writes the records to a key-value store. A new screen object is created each time the AR screen opens, and it loads them back.

This project models that state and proves what each handler does to it.

- `photo_records.dfy` (module `PhotoRecords`): vectors, images, image bytes and
  the saved record `PhotoData`. Its constructor defaults `scale` to
  `[1, 1, 1]`, as the Swift initializer does.
- `ar_session.dfy` (module `ARSession`): the screen as a state machine. The
  `Session` value holds the five fields. It also holds every node created so
  far with its attributes (`scene`), the next fresh node id, and the stored blob.
  Each handler is one function of the state and the inputs the framework would
  supply: the node the hit test returned, the surface point found, the gesture
  state and amount, and the picked image. The delete and clear alerts become
  the separate steps `ConfirmDelete` and `ConfirmClear`. Cancelling is no step.
- `session_properties.dfy` (module `SessionProperties`): the invariant `Valid`
  and its preservation by every handler, then what each branch of each handler
  does, then the save/load/restore round trip and the highlighting rules.
- `ar_photo_view_controller.dfy` (module `ARPhotoView`): the class
  `ARPhotoViewController`. Its fields mirror the Swift properties and its
  methods update them in place. The save and restore methods and the detach
  loop of clear-all are loops. Each method is proved to move `Model()` exactly
  as the matching `ARSession` function does. Each handler method, that is,
  each method that stands for a gesture, button or alert action, is also
  proved to keep `Valid`.

Nodes are distinct ids, because the Swift code compares `SCNNode`s by identity
(`contains`, `firstIndex(of:)`, `==`). Three library calls are partial
functions bundled in `Codecs`: JPEG encoding, image decoding and the JSON
coding of the record list. The "SavedPhotoData" key is a single optional slot.

Some behaviours of the source are kept as written:

- Clearing does not reset the selection. The stale node stays highlighted, and
  pinch and rotation still change it, although it is detached.
- A long press does not un-highlight the previous selection, so two nodes can
  be highlighted at once (`LongPressCanHighlightTwo`). With taps alone, only
  the selected node can be highlighted (`TapDrivenRunKeepsSingleHighlight`).
- Restore reads `position[0..2]` and `rotation[0..2]` without checking their
  length. It checks only the length of `scale`. A decoded record with a short
  position or rotation array stops the process with an index-out-of-range
  trap. `Restore` returns `None` in that case, and `RestoreTrapsIff` states
  exactly when that happens. Records written by save always have three entries.
- Deleting a node does not touch the saved records. The deleted photo comes back
  the next time the screen opens unless the user saves again.

## Model

| member | source | states |
|---|---|---|
| `PhotoRecords.Components` | PhotoLibrary/ARPhotoViewController.swift:352-354 | a vector is saved as exactly three entries, and reading the first three back gives the same vector |
| `PhotoRecords.DefaultScaleIsUnit` | PhotoLibrary/ARPhotoViewController.swift:434-440 | a record built without a scale has three unit entries, which read back as unit scale |
| `ARSession.FirstIndex` | PhotoLibrary/ARPhotoViewController.swift:178 | `firstIndex(of:)` returns nothing exactly when the node is absent; otherwise it returns an index holding the node with no earlier occurrence |
| `ARSession.RemoveFirst` | PhotoLibrary/ARPhotoViewController.swift:178-180 | an absent node leaves the list unchanged; otherwise the result is the list with its first occurrence of the node cut out, so the other nodes keep their order (length minus one, multiset minus the node) |
| `PhotoRecords.FromComponents` | PhotoLibrary/ARPhotoViewController.swift:383-388 | the vector read from a stored array is its first three entries, in order |
| `ARSession.Highlight` | PhotoLibrary/ARPhotoViewController.swift:314-325 | only the named node's highlight changes, to the requested value; a node that does not exist is left alone and no node is added |
| `ARSession.Detach` | PhotoLibrary/ARPhotoViewController.swift:177 | only the named node becomes detached; every other node and every attribute but attachment stay |
| `ARSession.DetachAll` | PhotoLibrary/ARPhotoViewController.swift:155 | a node is attached afterwards exactly when it was attached and is not among the detached nodes; no other attribute changes |
| `ARSession.CreatePhotoNode` | PhotoLibrary/ARPhotoViewController.swift:276-312 | a new node shows the image, sits at the origin with unit scale, and is neither attached nor highlighted |
| `ARSession.AddPhotoNode` | PhotoLibrary/ARPhotoViewController.swift:272-273 | the node is attached under the next id and that id is appended to the placed list; existing nodes, the records, the selection, the waiting image and the store are kept |
| `ARSession.PlacePhoto` | PhotoLibrary/ARPhotoViewController.swift:265-274 | the appended node shows the image, is attached and unhighlighted, and sits 0.1 above the surface point with no rotation and unit scale; the other nodes, the records, the store and the selection are kept |
| `ARSession.Tap` | PhotoLibrary/ARPhotoViewController.swift:164-213 | after a tap the selection is the tapped node when it is placed, and nothing otherwise; the placed list only grows, by at most one node; the records and the store are kept |
| `ARSession.ConfirmDelete` | PhotoLibrary/ARPhotoViewController.swift:175-182 | the selection is cleared; the node is detached and unhighlighted; the list loses the node's first occurrence, so it shrinks by one when the node is placed, and the other nodes keep their order; the records and the store are kept |
| `ARSession.LongPress` | PhotoLibrary/ARPhotoViewController.swift:215-226 | the selection changes only on `.began` over a placed node, to that node; the placed list, the set of nodes, the records and the store are kept |
| `ARSession.Pinch` | PhotoLibrary/ARPhotoViewController.swift:228-240 | the placed list, the set of nodes, the selection and every position are kept |
| `ARSession.Rotation` | PhotoLibrary/ARPhotoViewController.swift:242-253 | the placed list, the set of nodes, the selection, every position and every scale are kept |
| `ARSession.PickImage` | PhotoLibrary/ARPhotoViewController.swift:413-420 | the picked image waits to be placed and nothing else changes |
| `ARSession.ConfirmClear` | PhotoLibrary/ARPhotoViewController.swift:154-158 | both lists and the store are empty afterwards; the set of nodes, the next id and the selection are kept |
| `ARSession.RecordOf` | PhotoLibrary/ARPhotoViewController.swift:346-356 | a node has a record exactly when its image JPEG-encodes; the record holds those bytes and three entries each of position, angles and scale, which read back as the node's |
| `ARSession.Save` | PhotoLibrary/ARPhotoViewController.swift:342-362 | the nodes are untouched; there are at most as many records as placed nodes; the store changes only to the encoding of the new records |
| `ARSession.Load` | PhotoLibrary/ARPhotoViewController.swift:365-371 | only the records can change, and only to the decoding of the stored blob |
| `ARSession.RestoredNode` | PhotoLibrary/ARPhotoViewController.swift:381-389 | the restored node shows the image, is unattached and unhighlighted, takes the first three stored position and angle entries, and takes the stored scale only when it has three entries, unit scale otherwise |
| `ARSession.RestoreOne` | PhotoLibrary/ARPhotoViewController.swift:381-392 | one iteration traps exactly when the record's image decodes but its position or rotation is short; an undecodable record changes nothing; a decodable one appends one node with its image |
| `ARSession.RestoreAll` | PhotoLibrary/ARPhotoViewController.swift:380-394 | a loop that does not trap keeps the placed list as a prefix, adds at most one node per record, and keeps the records and the store |
| `ARSession.Restore` | PhotoLibrary/ARPhotoViewController.swift:379-395 | a restore that does not trap keeps the placed list as a prefix, adds at most one node per saved record, and keeps the records and the store |
| `ARSession.SaveRecords` | PhotoLibrary/ARPhotoViewController.swift:345-358 | the save loop produces at most one record per placed node |
| `SessionProperties.InitialIsValid` | PhotoLibrary/ARPhotoViewController.swift:10-12 | the screen starts with empty lists and satisfies the invariant |
| `SessionProperties.AddPhotoNodeKeepsValid` | PhotoLibrary/ARPhotoViewController.swift:272-273 | attaching and appending a new node keeps the invariant; its id was unused and not in the list |
| `SessionProperties.RemoveAtOfDistinct` | PhotoLibrary/ARPhotoViewController.swift:179 | `remove(at:)` on a list without repeats keeps it without repeats and drops exactly the element at that index |
| `SessionProperties.RemoveFirstOfDistinct` | PhotoLibrary/ARPhotoViewController.swift:178-180 | on the placed list, which has no repeats, removing the first occurrence removes the node entirely and keeps every other node |
| `SessionProperties.HighlightKeepsValid` | PhotoLibrary/ARPhotoViewController.swift:314-325 | recolouring a border keeps the invariant |
| `SessionProperties.TapOnNodeKeepsValid` | PhotoLibrary/ARPhotoViewController.swift:169-195 | a tap on a placed node keeps the invariant |
| `SessionProperties.PlacePhotoKeepsValid` | PhotoLibrary/ARPhotoViewController.swift:205-212 | placing the waiting image and consuming it keeps the invariant |
| `SessionProperties.TapKeepsValid` | PhotoLibrary/ARPhotoViewController.swift:164-213 | every tap keeps the invariant: placed nodes are distinct and exist, exactly the placed nodes are attached, the selection exists, and fresh ids are unused |
| `SessionProperties.ConfirmDeleteKeepsValid` | PhotoLibrary/ARPhotoViewController.swift:175-182 | confirming a delete keeps the invariant |
| `SessionProperties.GesturesKeepValid` | PhotoLibrary/ARPhotoViewController.swift:215-253 | long press, pinch and rotation keep the invariant |
| `SessionProperties.PickImageAndLoadKeepValid` | PhotoLibrary/ARPhotoViewController.swift:365-371 | picking an image and loading records keep the invariant |
| `SessionProperties.SaveKeepsValid` | PhotoLibrary/ARPhotoViewController.swift:342-362 | saving keeps the invariant |
| `SessionProperties.ConfirmClearKeepsValid` | PhotoLibrary/ARPhotoViewController.swift:154-158 | confirming clear-all keeps the invariant, although the stale selection survives |
| `SessionProperties.RestoreAllAppends` | PhotoLibrary/ARPhotoViewController.swift:379-395 | a restore that does not trap keeps the invariant; it keeps the old list as a prefix, adds only fresh unhighlighted nodes, leaves old nodes untouched, and keeps the records, selection, waiting image and store |
| `SessionProperties.RestoreKeepsValid` | PhotoLibrary/ARPhotoViewController.swift:379-395 | a restore that does not trap keeps the invariant |
| `SessionProperties.StepKeepsValid` | PhotoLibrary/ARPhotoViewController.swift:146-420 | every event the screen handles keeps the invariant |
| `SessionProperties.TapSelectsNode` | PhotoLibrary/ARPhotoViewController.swift:169-195 | a tap on a placed, unselected node selects and highlights it and un-highlights the previous selection; the lists, the waiting image, the store and every other node are unchanged |
| `SessionProperties.TapOnSelectedNodeWaits` | PhotoLibrary/ARPhotoViewController.swift:172-185 | a tap on the selected node changes nothing by itself; it only presents the delete alert |
| `SessionProperties.ConfirmDeleteRemovesNode` | PhotoLibrary/ARPhotoViewController.swift:175-182 | confirming the delete un-highlights and detaches the node, removes its one occurrence from the placed list and keeps the other nodes, clears the selection, and leaves the saved records and the store alone |
| `SessionProperties.TapElsewhereDeselects` | PhotoLibrary/ARPhotoViewController.swift:198-203 | a tap that hits no placed node clears the selection and un-highlights the old one; no other existing node, the records or the store change |
| `SessionProperties.TapElsewhereWithoutImagePlacesNothing` | PhotoLibrary/ARPhotoViewController.swift:204-205 | with no image waiting, such a tap creates and places no node |
| `SessionProperties.TapPlacesPendingImage` | PhotoLibrary/ARPhotoViewController.swift:205-212 | with an image waiting and a surface hit, exactly one fresh node is appended for that image, 0.1 above the surface point with unit scale and no highlight, and the waiting image is consumed |
| `SessionProperties.TapWithoutSurfaceKeepsImage` | PhotoLibrary/ARPhotoViewController.swift:208-212 | with no surface hit, nothing is placed and the waiting image stays |
| `SessionProperties.LongPressSelects` | PhotoLibrary/ARPhotoViewController.swift:221-225 | a long press beginning on a placed node selects and highlights it and leaves every other node, including the previous selection, as it was; nothing else changes |
| `SessionProperties.LongPressIgnored` | PhotoLibrary/ARPhotoViewController.swift:216-221 | long-press states other than `.began`, and presses off the placed nodes, change nothing |
| `SessionProperties.LongPressCanHighlightTwo` | PhotoLibrary/ARPhotoViewController.swift:221-225 | after a long press on another node, both that node and the previous selection are highlighted |
| `SessionProperties.ManipulationNeedsSelection` | PhotoLibrary/ARPhotoViewController.swift:228-253 | pinch and rotation change nothing without a selection or outside `.changed` |
| `SessionProperties.PinchScalesSelectedOnly` | PhotoLibrary/ARPhotoViewController.swift:228-240 | a changing pinch sets the selected node's scale to the gesture scale on all three axes and changes nothing else |
| `SessionProperties.RotationTurnsSelectedOnly` | PhotoLibrary/ARPhotoViewController.swift:242-253 | a changing rotation sets only the selected node's y Euler angle and changes nothing else |
| `SessionProperties.DetachAllStep` | PhotoLibrary/ARPhotoViewController.swift:155 | detaching one more node in the `forEach` extends the detached prefix by exactly that node |
| `SessionProperties.ConfirmClearEmpties` | PhotoLibrary/ARPhotoViewController.swift:154-158 | confirming clear-all empties both lists and the store and detaches every node, changing no other attribute; it keeps the selection, all highlights and the next id, so a stale selection survives |
| `SessionProperties.SaveRecordsConcat` | PhotoLibrary/ARPhotoViewController.swift:345-358 | the records for a concatenation are the records for each part, in order, so each node contributes independently and in list order |
| `SessionProperties.SaveRecordsStep` | PhotoLibrary/ARPhotoViewController.swift:345-357 | one more iteration of the save loop appends the next node's record when its image encodes, and nothing otherwise |
| `SessionProperties.SaveRecordsSingle` | PhotoLibrary/ARPhotoViewController.swift:346-357 | one node contributes its record when its image JPEG-encodes, and nothing otherwise |
| `SessionProperties.SaveRecordsAllEncode` | PhotoLibrary/ARPhotoViewController.swift:345-358 | when every image encodes, there is one record per node, and record k is node k's bytes, position, angles and scale |
| `SessionProperties.SaveRecordsNoneEncode` | PhotoLibrary/ARPhotoViewController.swift:345-358 | when no image encodes, no record is kept |
| `SessionProperties.SaveRebuildsRecords` | PhotoLibrary/ARPhotoViewController.swift:342-362 | save ignores the previous records and keeps at most one record per node; it writes the store exactly when the new list encodes; nothing else changes |
| `SessionProperties.SaveIsIdempotent` | PhotoLibrary/ARPhotoViewController.swift:342-362 | saving twice equals saving once |
| `SessionProperties.LoadAdoptsDecodedRecords` | PhotoLibrary/ARPhotoViewController.swift:365-371 | load changes nothing when the key is missing or the data does not decode; otherwise it replaces the records with the decoded list and changes nothing else |
| `SessionProperties.RestoreTrapsIff` | PhotoLibrary/ARPhotoViewController.swift:380-384 | restore traps exactly when some record's image decodes but its position or rotation has fewer than three entries |
| `SessionProperties.RestoreAddsOnePerDecodable` | PhotoLibrary/ARPhotoViewController.swift:380-394 | a restore that does not trap adds exactly one node per record whose image decodes |
| `SessionProperties.RestoreOneRecord` | PhotoLibrary/ARPhotoViewController.swift:381-392 | a decodable record becomes an appended, attached, unhighlighted node with the decoded image and the stored position and angles; the stored scale is used only when it has at least three entries, otherwise unit scale |
| `SessionProperties.DefaultScaleRestoresUnit` | PhotoLibrary/ARPhotoViewController.swift:386-389 | a record built without a scale restores to unit scale |
| `SessionProperties.RestoreAllConcat` | PhotoLibrary/ARPhotoViewController.swift:380-394 | the restore loop over two lists in a row is the loop over the first followed, unless it trapped, by the loop over the second |
| `SessionProperties.RestoreAllKeepsRecordOrder` | PhotoLibrary/ARPhotoViewController.swift:380-394 | for any records that do not trap, each record whose image decodes becomes the node placed right after those of the decodable records before it, under the id allocated then and with the record's layout; undecodable records are skipped |
| `SessionProperties.RestorableRestores` | PhotoLibrary/ARPhotoViewController.swift:380-394 | records that all decode and none of which is short restore without a trap, one node per record |
| `SessionProperties.PlacedFromIsRestoredAt` | PhotoLibrary/ARPhotoViewController.swift:380-394 | when every record decodes, the node restored from record k is the k-th new node |
| `SessionProperties.RestoreAllInOrder` | PhotoLibrary/ARPhotoViewController.swift:380-394 | when every record decodes and does not trap, the k-th new node is the one restored from record k |
| `SessionProperties.RecordRoundTrip` | PhotoLibrary/ARPhotoViewController.swift:350-389 | a node restored from a node's saved record has that node's position, Euler angles and scale |
| `SessionProperties.LoadAfterSave` | PhotoLibrary/ARPhotoViewController.swift:360-371 | when decoding undoes record encoding (`RecordCodingInverts`), loading what a successful save stored yields exactly the saved records |
| `SessionProperties.SavedRecordsRestorable` | PhotoLibrary/ARPhotoViewController.swift:345-389 | when every placed image encodes and every JPEG decodes (`JpegOutputDecodes`), every saved record decodes and has full position and rotation, so restoring them cannot trap |
| `SessionProperties.SaveThenRelaunchRestoresLayout` | PhotoLibrary/ARPhotoViewController.swift:342-394 | saving and then, the next time the screen opens, loading and restoring gives one node per saved node, in order, with the same position, angles and scale, attached and unhighlighted; this needs `RecordCodingInverts`, `JpegOutputDecodes`, and every image and the list to encode |
| `SessionProperties.RestoredRecordsKeepLayout` | PhotoLibrary/ARPhotoViewController.swift:350-392 | restoring, after an empty list, the records saved from a list of nodes lays out the k-th restored node as the k-th saved node was |
| `SessionProperties.StepKeepsSingleHighlight` | PhotoLibrary/ARPhotoViewController.swift:187-202 | every event except a long press keeps at most the selected node highlighted, when each delete is confirmed for the selected node |
| `SessionProperties.TapDrivenRunKeepsSingleHighlight` | PhotoLibrary/ARPhotoViewController.swift:164-213 | in any run of events without long presses, whose deletes are confirmed for the selected node: if no restore traps, the run keeps the invariant and leaves at most the selected node highlighted; a run without a restore never traps |
| `ARPhotoView.ARPhotoViewController.constructor` | PhotoLibrary/ARPhotoViewController.swift:10-12 | a new screen has no nodes, no records, no selection and no waiting image |
| `ARPhotoView.ARPhotoViewController.HighlightNode` | PhotoLibrary/ARPhotoViewController.swift:314-325 | only the node's highlight changes, and only when the node exists |
| `ARPhotoView.ARPhotoViewController.AddPhotoNode` | PhotoLibrary/ARPhotoViewController.swift:272-273 | the new node is attached under a fresh id and appended to the placed list |
| `ARPhotoView.ARPhotoViewController.PlacePhoto` | PhotoLibrary/ARPhotoViewController.swift:265-274 | the new node carries the image and sits 0.1 above the surface point |
| `ARPhotoView.ARPhotoViewController.HandleTap` | PhotoLibrary/ARPhotoViewController.swift:164-213 | updates the fields in place exactly as `Tap` does, and keeps the invariant |
| `ARPhotoView.ARPhotoViewController.DeleteConfirmed` | PhotoLibrary/ARPhotoViewController.swift:175-182 | updates the fields in place exactly as `ConfirmDelete` does, and keeps the invariant |
| `ARPhotoView.ARPhotoViewController.HandleLongPress` | PhotoLibrary/ARPhotoViewController.swift:215-226 | updates the fields in place exactly as `LongPress` does, and keeps the invariant |
| `ARPhotoView.ARPhotoViewController.HandlePinch` | PhotoLibrary/ARPhotoViewController.swift:228-240 | updates the fields in place exactly as `Pinch` does, and keeps the invariant |
| `ARPhotoView.ARPhotoViewController.HandleRotation` | PhotoLibrary/ARPhotoViewController.swift:242-253 | updates the fields in place exactly as `Rotation` does, and keeps the invariant |
| `ARPhotoView.ARPhotoViewController.ImagePicked` | PhotoLibrary/ARPhotoViewController.swift:413-420 | the picked image becomes the image waiting to be placed; nothing else changes |
| `ARPhotoView.ARPhotoViewController.ClearAllConfirmed` | PhotoLibrary/ARPhotoViewController.swift:154-158 | detaches each placed node in a loop, then empties both lists and the store, as `ConfirmClear` does, and keeps the invariant |
| `ARPhotoView.ARPhotoViewController.SaveCurrentPhotoPositions` | PhotoLibrary/ARPhotoViewController.swift:342-363 | its loop builds exactly `SaveRecords` of the placed nodes, and the store is written only when they encode, as `Save` does |
| `ARPhotoView.ARPhotoViewController.CollectRecords` | PhotoLibrary/ARPhotoViewController.swift:343-358 | the `for` loop of save rebuilds the records as exactly `SaveRecords` of the placed nodes, one per node whose image encodes, in list order |
| `ARPhotoView.ARPhotoViewController.LoadSavedPhotos` | PhotoLibrary/ARPhotoViewController.swift:365-371 | updates the records exactly as `Load` does |
| `ARPhotoView.ARPhotoViewController.RestoreSavedPhotos` | PhotoLibrary/ARPhotoViewController.swift:379-395 | reports a trap exactly when `Restore` traps; otherwise its loop leaves the state `Restore` describes and keeps the invariant |

## Left out

- Screen layout, buttons, labels and alert presentation (lines 55-136, 397-401) are left out because they are UI. The delete and clear alerts appear only as their confirm steps.
- ARKit session control and hit-testing (lines 22-33, 165-168, 208, 218-219) are calls into the AR framework. A tap or long press arrives as the hit node, if any, and the surface point, if any.
- Whether the hit test returns a border or shadow child node is not modelled. Such a node is not in `photoNodes`, so it counts as a tap off the placed nodes, like any other id that is not placed.
- The plane geometry of `createPhotoNode` (aspect-ratio sizing, border and shadow planes, lines 276-312) is left out because it is numerics on engine types. A node is modelled by its image, transform, highlight and attachment.
- 32-bit floating point is modelled as `real`. The rounding of `Float(...)` conversions and of the 0.1 offset is not captured.
- `jpegData`, `UIImage(data:)` and the JSON coding are library calls. They are partial functions supplied in `Codecs`. The round trip is proved only under two stated laws, not for any real encoder: decoding undoes record encoding (`RecordCodingInverts`), and every JPEG the encoder produces decodes (`JpegOutputDecodes`). `UserDefaults` is the single optional slot `stored`.
- The two-second delay before restoring (line 374) is scheduling. Restore is its own step, which can come after any other event. The source schedules exactly one restore after each successful load (lines 366-376). The `Event` model also allows a restore with no load before it, or several restores. This over-approximates the source, so the invariant lemmas over `Step` and `Run` also cover every run the source can produce.
- The recognizer's own state, that is, resetting `gesture.scale` and `gesture.rotation` when a gesture ends (lines 236, 249), is left out. The pinch factor and rotation angle are taken as inputs. Because of that reset, each new pinch sets the absolute scale rather than multiplying it.
- `movePhoto` (lines 327-340) is never called, so it is not modelled.
- The empty `renderer` delegate (lines 406-408), dismissal of the picker and the back button are left out because they have no effect on the modelled state.
- `PhotoData`'s default scale exists only on the memberwise initializer (lines 434-440). The synthesized `Decodable` of `scale: [Float]` requires the key, so a blob written before scale was saved would make the whole list fail to decode, and load would return without records (lines 366-368). This follows from Swift's synthesized `Decodable`, which ignores the initializer's default. `decodeRecords` is a parameter, so this loss of old records is not captured. `DefaultScaleIsUnit` and `DefaultScaleRestoresUnit` are about records built in code.
- `viewDidLoad` only sets up the scene and the UI and then loads. The model starts from `Initial(stored)`, and `LoadSavedPhotos` is the load step.
- PhotoLibrary/ViewController.swift is left out: it checks AR capability and camera/photo permissions, which are calls into OS APIs plus layout.
