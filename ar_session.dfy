/**
 * The bookkeeping of the AR photo screen (PhotoLibrary/ARPhotoViewController.swift)
 * as a state machine: one function per gesture handler, button action or alert
 * confirmation, over the placed-node list, the saved-record list, the selected
 * node, the image waiting to be placed, the scene's nodes and the stored blob.
 *
 * Hit tests, the image picker and the key-value store are outside: a tap arrives
 * as the node the hit test returned (if any) and the surface point it found (if
 * any); the codecs are partial functions given as parameters.
 */
module ARSession {
  import opened Wrappers
  import opened PhotoRecords

  /** A scene node's identity. Nodes are compared by identity and every new node gets a fresh id. */
  type NodeId = nat

  /** Height above the detected surface at which a photo is placed. */
  const HoverHeight: real := 0.1

  /** The attributes of a photo node that the screen reads or writes. */
  datatype PhotoNode = PhotoNode(
    image: Image,        // the picture on the plane's material
    position: Vec3,
    eulerAngles: Vec3,
    scale: Vec3,
    highlighted: bool,   // the border is drawn blue instead of white
    inScene: bool)       // attached under the scene's root node

  /** The states a gesture recognizer reports; only the first three are told apart. */
  datatype GestureState = Began | Changed | Ended | OtherState

  /** The library calls the screen makes, each of which may fail. */
  datatype Codecs = Codecs(
    jpegData: Image -> Option<Bytes>,                      // UIImage.jpegData(compressionQuality: 0.8)
    imageFromData: Bytes -> Option<Image>,                 // UIImage(data:)
    encodeRecords: seq<PhotoData> -> Option<Bytes>,        // JSONEncoder on [PhotoData]
    decodeRecords: Bytes -> Option<seq<PhotoData>>)        // JSONDecoder on [PhotoData]

  /**
   * The screen's state. `scene` holds every node ever created, attached or not,
   * so that a stale selection still names a node; `nextId` is the next fresh id;
   * `stored` is the value under the "SavedPhotoData" key of the key-value store.
   */
  datatype Session = Session(
    photoNodes: seq<NodeId>,
    savedPhotoData: seq<PhotoData>,
    selectedNodeForManipulation: Option<NodeId>,
    selectedImageForPlacement: Option<Image>,
    scene: map<NodeId, PhotoNode>,
    nextId: NodeId,
    stored: Option<Bytes>)

  predicate Distinct(xs: seq<NodeId>) {
    forall i, j :: 0 <= i < j < |xs| ==> xs[i] != xs[j]
  }

  /**
   * The invariant every handler keeps: the placed nodes are distinct existing
   * nodes, exactly the placed nodes are attached to the scene, the selection
   * names an existing node, and ids at or above `nextId` are unused.
   */
  predicate Valid(s: Session) {
    && Distinct(s.photoNodes)
    && (forall n :: n in s.photoNodes ==> n in s.scene)
    && (forall n :: n in s.scene ==> n < s.nextId)
    && (forall n :: n in s.scene ==> (s.scene[n].inScene <==> n in s.photoNodes))
    && (s.selectedNodeForManipulation.Some? ==> s.selectedNodeForManipulation.value in s.scene)
  }

  /** The state before the screen loads: nothing placed, nothing saved in memory. */
  function Initial(stored: Option<Bytes>): Session {
    Session([], [], None, None, map[], 0, stored)
  }

  // ---------------------------------------------------------------------------
  // Helpers shared by the handlers
  // ---------------------------------------------------------------------------

  /** `highlightNode`: recolours the node's border; a node without one is left alone. */
  function Highlight(scene: map<NodeId, PhotoNode>, n: NodeId, on: bool): (r: map<NodeId, PhotoNode>)
    ensures r.Keys == scene.Keys
    ensures n in scene ==> r[n] == scene[n].(highlighted := on)
    ensures forall m :: m in scene && m != n ==> r[m] == scene[m]
  {
    if n in scene then scene[n := scene[n].(highlighted := on)] else scene
  }

  /** `removeFromParentNode` on one node. */
  function Detach(scene: map<NodeId, PhotoNode>, n: NodeId): (r: map<NodeId, PhotoNode>)
    ensures r.Keys == scene.Keys
    ensures n in scene ==> r[n] == scene[n].(inScene := false)
    ensures forall m :: m in scene && m != n ==> r[m] == scene[m]
  {
    if n in scene then scene[n := scene[n].(inScene := false)] else scene
  }

  /** `firstIndex(of:)`: the position of the first occurrence of `x`. */
  function FirstIndex(xs: seq<NodeId>, x: NodeId): (r: Option<nat>)
    ensures r.None? <==> x !in xs
    ensures r.Some? ==> r.value < |xs| && xs[r.value] == x && x !in xs[..r.value]
  {
    if xs == [] then None
    else if xs[0] == x then Some(0)
    else match FirstIndex(xs[1..], x)
      case None => None
      case Some(i) =>
        assert xs[..i + 1] == [xs[0]] + xs[1..][..i];
        Some(i + 1)
  }

  /** `firstIndex(of:)` followed by `remove(at:)` when an index is found. */
  function RemoveFirst(xs: seq<NodeId>, x: NodeId): (r: seq<NodeId>)
    ensures x !in xs ==> r == xs
    ensures x in xs ==> |r| == |xs| - 1 && multiset(r) == multiset(xs) - multiset{x}
    ensures x in xs ==> exists i :: 0 <= i < |xs| && xs[i] == x && x !in xs[..i] && r == xs[..i] + xs[i + 1..]
  {
    match FirstIndex(xs, x)
    case None => xs
    case Some(i) =>
      assert xs == xs[..i] + [x] + xs[i + 1..];
      xs[..i] + xs[i + 1..]
  }

  /** `createPhotoNode`: an unattached, unhighlighted node at the origin with unit scale. */
  function CreatePhotoNode(image: Image): (r: PhotoNode)
    ensures r.image == image && !r.highlighted && !r.inScene
    ensures r.position == Origin && r.eulerAngles == Origin && r.scale == UnitScale
  {
    PhotoNode(image, Origin, Origin, UnitScale, false, false)
  }

  /** `addChildNode` followed by `photoNodes.append` for a newly created node. */
  function AddPhotoNode(s: Session, node: PhotoNode): (r: Session)
    ensures r.photoNodes == s.photoNodes + [s.nextId] && r.nextId == s.nextId + 1
    ensures r.scene.Keys == s.scene.Keys + {s.nextId} && r.scene[s.nextId] == node.(inScene := true)
    ensures forall n :: n in s.scene && n != s.nextId ==> r.scene[n] == s.scene[n]
    ensures r.savedPhotoData == s.savedPhotoData && r.stored == s.stored
    ensures r.selectedNodeForManipulation == s.selectedNodeForManipulation
    ensures r.selectedImageForPlacement == s.selectedImageForPlacement
  {
    s.(scene := s.scene[s.nextId := node.(inScene := true)],
       photoNodes := s.photoNodes + [s.nextId],
       nextId := s.nextId + 1)
  }

  /** `placePhoto`: a new node for `image`, hovering above the surface point. */
  function PlacePhoto(s: Session, image: Image, surfacePoint: Vec3): (r: Session)
    ensures r.photoNodes == s.photoNodes + [s.nextId] && s.nextId in r.scene
    ensures var node := r.scene[s.nextId];
      && node.image == image && node.inScene && !node.highlighted
      && node.position == Vec3(surfacePoint.x, surfacePoint.y + HoverHeight, surfacePoint.z)
      && node.eulerAngles == Origin && node.scale == UnitScale
    ensures forall n :: n in s.scene && n != s.nextId ==> n in r.scene && r.scene[n] == s.scene[n]
    ensures r.savedPhotoData == s.savedPhotoData && r.stored == s.stored
    ensures r.selectedNodeForManipulation == s.selectedNodeForManipulation
  {
    AddPhotoNode(s, CreatePhotoNode(image).(position := Vec3(surfacePoint.x, surfacePoint.y + HoverHeight, surfacePoint.z)))
  }

  // ---------------------------------------------------------------------------
  // Gesture handlers
  // ---------------------------------------------------------------------------

  /**
   * `handleTap`. A tap on a placed node selects it, or, when it is already
   * selected, only presents the delete alert (see ConfirmDelete). Any other tap
   * clears the selection and then, when an image is waiting and the tap found a
   * surface, places that image there.
   */
  function Tap(s: Session, hit: Option<NodeId>, surface: Option<Vec3>): (r: Session)
    ensures r.selectedNodeForManipulation == if hit.Some? && hit.value in s.photoNodes then hit else None
    ensures s.photoNodes <= r.photoNodes && |r.photoNodes| <= |s.photoNodes| + 1
    ensures r.savedPhotoData == s.savedPhotoData && r.stored == s.stored
  {
    if hit.Some? && hit.value in s.photoNodes then
      if s.selectedNodeForManipulation == hit then s
      else
        var scene := match s.selectedNodeForManipulation
          case Some(previous) => Highlight(s.scene, previous, false)
          case None => s.scene;
        s.(selectedNodeForManipulation := hit, scene := Highlight(scene, hit.value, true))
    else
      var s1 := match s.selectedNodeForManipulation
        case Some(selected) => s.(scene := Highlight(s.scene, selected, false), selectedNodeForManipulation := None)
        case None => s;
      match s1.selectedImageForPlacement
      case None => s1
      case Some(image) =>
        match surface
        case None => s1
        case Some(point) => PlacePhoto(s1, image, point).(selectedImageForPlacement := None)
  }

  /** The "delete" action of the alert a tap on the selected node presents; `node` is the tapped node. */
  function ConfirmDelete(s: Session, node: NodeId): (r: Session)
    ensures r.selectedNodeForManipulation.None?
    ensures node in s.scene ==> node in r.scene && !r.scene[node].inScene && !r.scene[node].highlighted
    ensures node in s.photoNodes ==> |r.photoNodes| == |s.photoNodes| - 1
    ensures r.photoNodes == RemoveFirst(s.photoNodes, node)
    ensures r.savedPhotoData == s.savedPhotoData && r.stored == s.stored
  {
    s.(scene := Detach(Highlight(s.scene, node, false), node),
       photoNodes := RemoveFirst(s.photoNodes, node),
       selectedNodeForManipulation := None)
  }

  /** `handleLongPress`: on `.began` over a placed node, selects and highlights it. */
  function LongPress(s: Session, state: GestureState, hit: Option<NodeId>): (r: Session)
    ensures r.selectedNodeForManipulation ==
      if state == Began && hit.Some? && hit.value in s.photoNodes then hit else s.selectedNodeForManipulation
    ensures r.photoNodes == s.photoNodes && r.scene.Keys == s.scene.Keys
    ensures r.savedPhotoData == s.savedPhotoData && r.stored == s.stored
  {
    if state != Began then s
    else if hit.Some? && hit.value in s.photoNodes then
      s.(selectedNodeForManipulation := hit, scene := Highlight(s.scene, hit.value, true))
    else s
  }

  /** `handlePinch`: while the pinch changes, the selected node's scale is the gesture's scale on every axis. */
  function Pinch(s: Session, state: GestureState, factor: real): (r: Session)
    requires Valid(s)
    ensures r.photoNodes == s.photoNodes && r.scene.Keys == s.scene.Keys
    ensures r.selectedNodeForManipulation == s.selectedNodeForManipulation
    ensures forall n :: n in s.scene ==> r.scene[n].position == s.scene[n].position
  {
    match s.selectedNodeForManipulation
    case None => s
    case Some(n) =>
      if state == Changed then s.(scene := s.scene[n := s.scene[n].(scale := Vec3(factor, factor, factor))])
      else s
  }

  /** `handleRotation`: while the rotation changes, the selected node's y Euler angle is the gesture's rotation. */
  function Rotation(s: Session, state: GestureState, angle: real): (r: Session)
    requires Valid(s)
    ensures r.photoNodes == s.photoNodes && r.scene.Keys == s.scene.Keys
    ensures r.selectedNodeForManipulation == s.selectedNodeForManipulation
    ensures forall n :: n in s.scene ==> r.scene[n].position == s.scene[n].position && r.scene[n].scale == s.scene[n].scale
  {
    match s.selectedNodeForManipulation
    case None => s
    case Some(n) =>
      if state == Changed then s.(scene := s.scene[n := s.scene[n].(eulerAngles := s.scene[n].eulerAngles.(y := angle))])
      else s
  }

  /** The image picker delegate: the picked image waits to be placed. */
  function PickImage(s: Session, image: Image): (r: Session)
    ensures r.selectedImageForPlacement == Some(image)
    ensures r.(selectedImageForPlacement := s.selectedImageForPlacement) == s
  {
    s.(selectedImageForPlacement := Some(image))
  }

  // ---------------------------------------------------------------------------
  // Buttons and persistence
  // ---------------------------------------------------------------------------

  /** `removeFromParentNode` on each of `nodes`. */
  function DetachAll(scene: map<NodeId, PhotoNode>, nodes: seq<NodeId>): (r: map<NodeId, PhotoNode>)
    ensures r.Keys == scene.Keys
    ensures forall n :: n in scene ==> r[n].inScene == (scene[n].inScene && n !in nodes)
    ensures forall n :: n in scene ==> r[n].(inScene := scene[n].inScene) == scene[n]
  {
    map n | n in scene :: if n in nodes then scene[n].(inScene := false) else scene[n]
  }

  /** The "confirm" action of the clear-all alert; the selection is left as it was. */
  function ConfirmClear(s: Session): (r: Session)
    ensures r.photoNodes == [] && r.savedPhotoData == [] && r.stored.None?
    ensures r.scene.Keys == s.scene.Keys && r.nextId == s.nextId
    ensures r.selectedNodeForManipulation == s.selectedNodeForManipulation
  {
    s.(scene := DetachAll(s.scene, s.photoNodes),
       photoNodes := [],
       savedPhotoData := [],
       stored := None)
  }

  /** The record saved for one node, absent when its image does not JPEG-encode. */
  function RecordOf(node: PhotoNode, jpegData: Image -> Option<Bytes>): (r: Option<PhotoData>)
    ensures r.Some? <==> jpegData(node.image).Some?
    ensures r.Some? ==> r.value.imageData == jpegData(node.image).value
    ensures r.Some? ==> |r.value.position| == 3 && |r.value.rotation| == 3 && |r.value.scale| == 3
    ensures r.Some? ==> (FromComponents(r.value.position) == node.position
      && FromComponents(r.value.rotation) == node.eulerAngles && FromComponents(r.value.scale) == node.scale)
  {
    match jpegData(node.image)
    case None => None
    case Some(imageData) =>
      Some(PhotoData(imageData, Components(node.position), Components(node.eulerAngles), Components(node.scale)))
  }

  /** The records the save loop builds for `nodes`, in order. */
  function SaveRecords(nodes: seq<NodeId>, scene: map<NodeId, PhotoNode>, jpegData: Image -> Option<Bytes>): (r: seq<PhotoData>)
    requires forall n :: n in nodes ==> n in scene
    ensures |r| <= |nodes|
  {
    if nodes == [] then []
    else
      var earlier := SaveRecords(nodes[..|nodes| - 1], scene, jpegData);
      match RecordOf(scene[nodes[|nodes| - 1]], jpegData)
      case None => earlier
      case Some(photoData) => earlier + [photoData]
  }

  /** `saveCurrentPhotoPositions`: rebuilds the record list and writes it to the store when it encodes. */
  function Save(s: Session, codecs: Codecs): (r: Session)
    requires Valid(s)
    ensures r.photoNodes == s.photoNodes && r.scene == s.scene
    ensures |r.savedPhotoData| <= |s.photoNodes|
    ensures r.stored != s.stored ==> r.stored == codecs.encodeRecords(r.savedPhotoData)
  {
    var records := SaveRecords(s.photoNodes, s.scene, codecs.jpegData);
    s.(savedPhotoData := records,
       stored := match codecs.encodeRecords(records)
         case Some(encoded) => Some(encoded)
         case None => s.stored)
  }

  /** `loadSavedPhotos`: replaces the record list with the stored one when it is present and decodes. */
  function Load(s: Session, codecs: Codecs): (r: Session)
    ensures r.(savedPhotoData := s.savedPhotoData) == s
    ensures r.savedPhotoData != s.savedPhotoData ==>
      s.stored.Some? && codecs.decodeRecords(s.stored.value) == Some(r.savedPhotoData)
  {
    match s.stored
    case None => s
    case Some(data) =>
      match codecs.decodeRecords(data)
      case None => s
      case Some(decoded) => s.(savedPhotoData := decoded)
  }

  /** Restoring a record whose image decodes reads three entries of position and rotation without checking the count. */
  predicate Traps(photoData: PhotoData, imageFromData: Bytes -> Option<Image>) {
    imageFromData(photoData.imageData).Some? && (|photoData.position| < 3 || |photoData.rotation| < 3)
  }

  /** The node restored from a record: stored position and angles, stored scale only when it has three entries. */
  function RestoredNode(image: Image, photoData: PhotoData): (r: PhotoNode)
    requires |photoData.position| >= 3 && |photoData.rotation| >= 3
    ensures r.image == image && !r.highlighted && !r.inScene
    ensures Components(r.position) == photoData.position[..3] && Components(r.eulerAngles) == photoData.rotation[..3]
    ensures |photoData.scale| >= 3 ==> Components(r.scale) == photoData.scale[..3]
    ensures |photoData.scale| < 3 ==> r.scale == UnitScale
  {
    var node := CreatePhotoNode(image).(position := FromComponents(photoData.position),
                                        eulerAngles := FromComponents(photoData.rotation));
    if |photoData.scale| >= 3 then node.(scale := FromComponents(photoData.scale)) else node
  }

  /** One iteration of the restore loop; `None` is the runtime trap of an out-of-range index. */
  function RestoreOne(s: Session, photoData: PhotoData, imageFromData: Bytes -> Option<Image>): (r: Option<Session>)
    ensures r.None? <==> Traps(photoData, imageFromData)
    ensures r.Some? && imageFromData(photoData.imageData).None? ==> r.value == s
    ensures r.Some? && imageFromData(photoData.imageData).Some? ==>
      r.value.photoNodes == s.photoNodes + [s.nextId] && s.nextId in r.value.scene && r.value.scene[s.nextId].image == imageFromData(photoData.imageData).value
  {
    match imageFromData(photoData.imageData)
    case None => Some(s)
    case Some(image) =>
      if |photoData.position| < 3 || |photoData.rotation| < 3 then None
      else Some(AddPhotoNode(s, RestoredNode(image, photoData)))
  }

  /** The restore loop over `records`, in order. */
  function RestoreAll(s: Session, records: seq<PhotoData>, imageFromData: Bytes -> Option<Image>): (r: Option<Session>)
    ensures r.Some? ==> s.photoNodes <= r.value.photoNodes && |r.value.photoNodes| <= |s.photoNodes| + |records|
    ensures r.Some? ==> r.value.savedPhotoData == s.savedPhotoData && r.value.stored == s.stored
    decreases |records|
  {
    if records == [] then Some(s)
    else match RestoreAll(s, records[..|records| - 1], imageFromData)
      case None => None
      case Some(s1) => RestoreOne(s1, records[|records| - 1], imageFromData)
  }

  /** `restoreSavedPhotos`: one node per saved record whose image decodes. */
  function Restore(s: Session, codecs: Codecs): (r: Option<Session>)
    ensures r.Some? ==> s.photoNodes <= r.value.photoNodes && |r.value.photoNodes| <= |s.photoNodes| + |s.savedPhotoData|
    ensures r.Some? ==> r.value.savedPhotoData == s.savedPhotoData && r.value.stored == s.stored
  {
    RestoreAll(s, s.savedPhotoData, codecs.imageFromData)
  }

  // ---------------------------------------------------------------------------
  // Sequences of events
  // ---------------------------------------------------------------------------

  /** Everything the user or the run loop can do to the screen. */
  datatype Event =
    | TapAt(hit: Option<NodeId>, surface: Option<Vec3>)
    | DeleteConfirmed(node: NodeId)
    | LongPressAt(state: GestureState, pressed: Option<NodeId>)
    | PinchBy(pinchState: GestureState, factor: real)
    | RotateBy(rotationState: GestureState, angle: real)
    | ImagePicked(image: Image)
    | SaveTapped
    | ClearConfirmed
    | LoadRequested
    | RestoreFired

  function Step(s: Session, e: Event, codecs: Codecs): Option<Session>
    requires Valid(s)
  {
    match e
    case TapAt(hit, surface) => Some(Tap(s, hit, surface))
    case DeleteConfirmed(node) => Some(ConfirmDelete(s, node))
    case LongPressAt(state, pressed) => Some(LongPress(s, state, pressed))
    case PinchBy(state, factor) => Some(Pinch(s, state, factor))
    case RotateBy(state, angle) => Some(Rotation(s, state, angle))
    case ImagePicked(image) => Some(PickImage(s, image))
    case SaveTapped => Some(Save(s, codecs))
    case ClearConfirmed => Some(ConfirmClear(s))
    case LoadRequested => Some(Load(s, codecs))
    case RestoreFired => Restore(s, codecs)
  }
}
