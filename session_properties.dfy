/**
 * What the AR photo screen's handlers promise, proved about the state machine
 * in ARSession: each handler keeps the invariant, does what its branch says
 * and touches nothing else; saving and restoring relate as a round trip; and
 * taps alone never leave more than one node highlighted, while a long press can.
 */
module SessionProperties {
  import opened Wrappers
  import opened PhotoRecords
  import opened ARSession

  // ---------------------------------------------------------------------------
  // The invariant
  // ---------------------------------------------------------------------------

  lemma InitialIsValid(stored: Option<Bytes>)
    ensures Valid(Initial(stored))
    ensures Initial(stored).photoNodes == [] && Initial(stored).savedPhotoData == []
  {
  }

  lemma AddPhotoNodeKeepsValid(s: Session, node: PhotoNode)
    requires Valid(s)
    ensures Valid(AddPhotoNode(s, node))
    ensures s.nextId !in s.scene && s.nextId !in s.photoNodes
  {
  }

  /** Removing one position of a list without repeats keeps it without repeats and drops exactly that element. */
  lemma RemoveAtOfDistinct(xs: seq<NodeId>, i: nat)
    requires Distinct(xs) && i < |xs|
    ensures Distinct(xs[..i] + xs[i + 1..])
    ensures forall y :: y in xs[..i] + xs[i + 1..] <==> y in xs && y != xs[i]
  {
    var r := xs[..i] + xs[i + 1..];
    assert |r| == |xs| - 1;
    assert forall k :: 0 <= k < |r| ==> r[k] == xs[if k < i then k else k + 1];
    forall y ensures y in r <==> y in xs && y != xs[i] {
      if y in xs && y != xs[i] {
        var k :| 0 <= k < |xs| && xs[k] == y;
        assert r[if k < i then k else k - 1] == y;
      }
    }
  }

  /** Removing the first occurrence from a list without repeats removes the element entirely and keeps the rest. */
  lemma RemoveFirstOfDistinct(xs: seq<NodeId>, x: NodeId)
    requires Distinct(xs)
    ensures Distinct(RemoveFirst(xs, x))
    ensures forall y :: y in RemoveFirst(xs, x) <==> y in xs && y != x
  {
    match FirstIndex(xs, x)
    case None =>
    case Some(i) => RemoveAtOfDistinct(xs, i);
  }

  /** Recolouring a border changes no node's attachment, so the invariant holds. */
  lemma HighlightKeepsValid(s: Session, n: NodeId, on: bool)
    requires Valid(s)
    ensures Valid(s.(scene := Highlight(s.scene, n, on)))
  {
  }

  lemma TapKeepsValid(s: Session, hit: Option<NodeId>, surface: Option<Vec3>)
    requires Valid(s)
    ensures Valid(Tap(s, hit, surface))
  {
    if hit.Some? && hit.value in s.photoNodes {
      TapOnNodeKeepsValid(s, hit.value);
    } else {
      var s1 := match s.selectedNodeForManipulation
        case Some(selected) => s.(scene := Highlight(s.scene, selected, false), selectedNodeForManipulation := None)
        case None => s;
      if s.selectedNodeForManipulation.Some? {
        HighlightKeepsValid(s, s.selectedNodeForManipulation.value, false);
      }
      assert Valid(s1);
      if s1.selectedImageForPlacement.Some? && surface.Some? {
        PlacePhotoKeepsValid(s1, s1.selectedImageForPlacement.value, surface.value);
      }
    }
  }

  lemma TapOnNodeKeepsValid(s: Session, n: NodeId)
    requires Valid(s) && n in s.photoNodes
    ensures Valid(Tap(s, Some(n), None))
  {
    if s.selectedNodeForManipulation != Some(n) {
      var scene := match s.selectedNodeForManipulation
        case Some(previous) => Highlight(s.scene, previous, false)
        case None => s.scene;
      if s.selectedNodeForManipulation.Some? {
        HighlightKeepsValid(s, s.selectedNodeForManipulation.value, false);
      }
      HighlightKeepsValid(s.(scene := scene), n, true);
    }
  }

  lemma PlacePhotoKeepsValid(s: Session, image: Image, point: Vec3)
    requires Valid(s)
    ensures Valid(PlacePhoto(s, image, point).(selectedImageForPlacement := None))
  {
    AddPhotoNodeKeepsValid(s, CreatePhotoNode(image).(position := Vec3(point.x, point.y + HoverHeight, point.z)));
  }

  lemma ConfirmDeleteKeepsValid(s: Session, node: NodeId)
    requires Valid(s)
    ensures Valid(ConfirmDelete(s, node))
  {
    RemoveFirstOfDistinct(s.photoNodes, node);
  }

  lemma GesturesKeepValid(s: Session, state: GestureState, hit: Option<NodeId>, amount: real)
    requires Valid(s)
    ensures Valid(LongPress(s, state, hit))
    ensures Valid(Pinch(s, state, amount)) && Valid(Rotation(s, state, amount))
  {
  }

  lemma PickImageAndLoadKeepValid(s: Session, codecs: Codecs, image: Image)
    requires Valid(s)
    ensures Valid(PickImage(s, image)) && Valid(Load(s, codecs))
  {
  }

  lemma SaveKeepsValid(s: Session, codecs: Codecs)
    requires Valid(s)
    ensures Valid(Save(s, codecs))
  {
  }

  lemma ConfirmClearKeepsValid(s: Session)
    requires Valid(s)
    ensures Valid(ConfirmClear(s))
  {
  }

  /** Restoring appends fresh nodes after the existing ones and changes nothing else. */
  lemma {:induction false} RestoreAllAppends(s: Session, records: seq<PhotoData>, imageFromData: Bytes -> Option<Image>)
    requires Valid(s)
    requires RestoreAll(s, records, imageFromData).Some?
    ensures var r := RestoreAll(s, records, imageFromData).value;
      && Valid(r)
      && |s.photoNodes| <= |r.photoNodes| && r.photoNodes[..|s.photoNodes|] == s.photoNodes
      && s.nextId <= r.nextId
      && (forall n :: n in s.scene ==> n in r.scene && r.scene[n] == s.scene[n])
      && (forall k :: |s.photoNodes| <= k < |r.photoNodes| ==> s.nextId <= r.photoNodes[k])
      && (forall n :: n in r.scene && n !in s.scene ==> !r.scene[n].highlighted)
      && r.savedPhotoData == s.savedPhotoData
      && r.selectedNodeForManipulation == s.selectedNodeForManipulation
      && r.selectedImageForPlacement == s.selectedImageForPlacement
      && r.stored == s.stored
    decreases |records|
  {
    if records != [] {
      var init := records[..|records| - 1];
      RestoreAllAppends(s, init, imageFromData);
      var s1 := RestoreAll(s, init, imageFromData).value;
      var photoData := records[|records| - 1];
      if imageFromData(photoData.imageData).Some? {
        var node := RestoredNode(imageFromData(photoData.imageData).value, photoData);
        AddPhotoNodeKeepsValid(s1, node);
        var r := AddPhotoNode(s1, node);
        assert r.photoNodes[..|s.photoNodes|] == s1.photoNodes[..|s.photoNodes|];
      }
    }
  }

  lemma RestoreKeepsValid(s: Session, codecs: Codecs)
    requires Valid(s)
    ensures Restore(s, codecs).Some? ==> Valid(Restore(s, codecs).value)
  {
    if Restore(s, codecs).Some? {
      RestoreAllAppends(s, s.savedPhotoData, codecs.imageFromData);
    }
  }

  lemma StepKeepsValid(s: Session, e: Event, codecs: Codecs)
    requires Valid(s)
    ensures Step(s, e, codecs).Some? ==> Valid(Step(s, e, codecs).value)
  {
    match e
    case TapAt(hit, surface) => TapKeepsValid(s, hit, surface);
    case DeleteConfirmed(node) => ConfirmDeleteKeepsValid(s, node);
    case LongPressAt(state, pressed) => GesturesKeepValid(s, state, pressed, 0.0);
    case PinchBy(state, factor) => GesturesKeepValid(s, state, None, factor);
    case RotateBy(state, angle) => GesturesKeepValid(s, state, None, angle);
    case ImagePicked(image) => PickImageAndLoadKeepValid(s, codecs, image);
    case SaveTapped => SaveKeepsValid(s, codecs);
    case ClearConfirmed => ConfirmClearKeepsValid(s);
    case LoadRequested => PickImageAndLoadKeepValid(s, codecs, Picture(0));
    case RestoreFired => RestoreKeepsValid(s, codecs);
  }

  // ---------------------------------------------------------------------------
  // Taps
  // ---------------------------------------------------------------------------

  /** A tap on a placed, unselected node selects and highlights it and un-highlights the previous selection. */
  lemma TapSelectsNode(s: Session, n: NodeId, surface: Option<Vec3>)
    requires Valid(s)
    requires n in s.photoNodes && s.selectedNodeForManipulation != Some(n)
    ensures var r := Tap(s, Some(n), surface);
      && r.selectedNodeForManipulation == Some(n)
      && r.scene[n] == s.scene[n].(highlighted := true)
      && (s.selectedNodeForManipulation.Some? ==>
            var p := s.selectedNodeForManipulation.value;
            r.scene[p] == s.scene[p].(highlighted := false))
      && r.scene.Keys == s.scene.Keys
      && (forall m :: m in s.scene && m != n && Some(m) != s.selectedNodeForManipulation ==> r.scene[m] == s.scene[m])
      && r.photoNodes == s.photoNodes && r.savedPhotoData == s.savedPhotoData
      && r.selectedImageForPlacement == s.selectedImageForPlacement && r.stored == s.stored
  {
  }

  /** A tap on the selected node changes nothing; it only offers the delete confirmation. */
  lemma TapOnSelectedNodeWaits(s: Session, n: NodeId, surface: Option<Vec3>)
    requires n in s.photoNodes && s.selectedNodeForManipulation == Some(n)
    ensures Tap(s, Some(n), surface) == s
  {
  }

  /**
   * Confirming the delete of the selected node un-highlights and detaches it,
   * drops it from the placed list, clears the selection, and keeps the saved records.
   */
  lemma ConfirmDeleteRemovesNode(s: Session, n: NodeId)
    requires Valid(s)
    requires n in s.photoNodes && s.selectedNodeForManipulation == Some(n)
    ensures var r := ConfirmDelete(s, n);
      && r.photoNodes == RemoveFirst(s.photoNodes, n)
      && |r.photoNodes| == |s.photoNodes| - 1
      && n !in r.photoNodes
      && (forall m :: m in s.photoNodes && m != n ==> m in r.photoNodes)
      && r.selectedNodeForManipulation == None
      && r.scene[n] == s.scene[n].(highlighted := false, inScene := false)
      && (forall m :: m in s.scene && m != n ==> m in r.scene && r.scene[m] == s.scene[m])
      && r.savedPhotoData == s.savedPhotoData
      && r.stored == s.stored && r.selectedImageForPlacement == s.selectedImageForPlacement
  {
    RemoveFirstOfDistinct(s.photoNodes, n);
  }

  /** A tap that hits no placed node clears and un-highlights the selection. */
  lemma TapElsewhereDeselects(s: Session, hit: Option<NodeId>, surface: Option<Vec3>)
    requires Valid(s)
    requires hit.None? || hit.value !in s.photoNodes
    ensures var r := Tap(s, hit, surface);
      && r.selectedNodeForManipulation == None
      && (s.selectedNodeForManipulation.Some? ==>
            var p := s.selectedNodeForManipulation.value;
            r.scene[p] == s.scene[p].(highlighted := false))
      && r.savedPhotoData == s.savedPhotoData && r.stored == s.stored
      && (forall m :: m in s.scene && Some(m) != s.selectedNodeForManipulation ==> m in r.scene && r.scene[m] == s.scene[m])
  {
    TapKeepsValid(s, hit, surface);
  }

  /** With no image waiting, a tap that hits no placed node does nothing besides deselecting. */
  lemma TapElsewhereWithoutImagePlacesNothing(s: Session, hit: Option<NodeId>, surface: Option<Vec3>)
    requires hit.None? || hit.value !in s.photoNodes
    requires s.selectedImageForPlacement.None?
    ensures var r := Tap(s, hit, surface);
      && r.photoNodes == s.photoNodes && r.nextId == s.nextId
      && r.scene.Keys == s.scene.Keys
      && r.selectedImageForPlacement == None
  {
  }

  /** With an image waiting and a surface found, a tap appends exactly one fresh node for it and consumes the image. */
  lemma TapPlacesPendingImage(s: Session, hit: Option<NodeId>, point: Vec3, image: Image)
    requires Valid(s)
    requires hit.None? || hit.value !in s.photoNodes
    requires s.selectedImageForPlacement == Some(image)
    ensures var r := Tap(s, hit, Some(point));
      && r.photoNodes == s.photoNodes + [s.nextId]
      && s.nextId !in s.scene
      && r.scene[s.nextId] == PhotoNode(image, Vec3(point.x, point.y + HoverHeight, point.z), Origin, UnitScale, false, true)
      && r.selectedImageForPlacement == None
      && r.selectedNodeForManipulation == None
      && r.savedPhotoData == s.savedPhotoData && r.stored == s.stored
  {
  }

  /** With an image waiting but no surface found, the image keeps waiting and nothing is placed. */
  lemma TapWithoutSurfaceKeepsImage(s: Session, hit: Option<NodeId>)
    requires hit.None? || hit.value !in s.photoNodes
    ensures var r := Tap(s, hit, None);
      && r.photoNodes == s.photoNodes
      && r.selectedImageForPlacement == s.selectedImageForPlacement
      && r.nextId == s.nextId
  {
  }

  // ---------------------------------------------------------------------------
  // Long press, pinch and rotation
  // ---------------------------------------------------------------------------

  /** A long press that begins on a placed node selects and highlights it and leaves every other node as it was. */
  lemma LongPressSelects(s: Session, n: NodeId)
    requires Valid(s)
    requires n in s.photoNodes
    ensures var r := LongPress(s, Began, Some(n));
      && r.selectedNodeForManipulation == Some(n)
      && r.scene[n] == s.scene[n].(highlighted := true)
      && (forall m :: m in s.scene && m != n ==> m in r.scene && r.scene[m] == s.scene[m])
      && r.(selectedNodeForManipulation := s.selectedNodeForManipulation, scene := s.scene) == s
  {
  }

  /** Only the `.began` state of a long press, over a placed node, has any effect. */
  lemma LongPressIgnored(s: Session, state: GestureState, hit: Option<NodeId>)
    requires state != Began || hit.None? || hit.value !in s.photoNodes
    ensures LongPress(s, state, hit) == s
  {
  }

  /** Pinch and rotation do nothing without a selection or outside the `.changed` state. */
  lemma ManipulationNeedsSelection(s: Session, state: GestureState, amount: real)
    requires Valid(s)
    requires s.selectedNodeForManipulation.None? || state != Changed
    ensures Pinch(s, state, amount) == s && Rotation(s, state, amount) == s
  {
  }

  /** A changing pinch sets the selected node's scale uniformly and changes nothing else. */
  lemma PinchScalesSelectedOnly(s: Session, n: NodeId, factor: real)
    requires Valid(s)
    requires s.selectedNodeForManipulation == Some(n)
    ensures var r := Pinch(s, Changed, factor);
      && r.scene[n].scale == Vec3(factor, factor, factor)
      && r.scene[n].(scale := s.scene[n].scale) == s.scene[n]
      && (forall m :: m in s.scene && m != n ==> m in r.scene && r.scene[m] == s.scene[m])
      && r.scene.Keys == s.scene.Keys
      && r.(scene := s.scene) == s
  {
  }

  /** A changing rotation sets the selected node's y angle and changes nothing else. */
  lemma RotationTurnsSelectedOnly(s: Session, n: NodeId, angle: real)
    requires Valid(s)
    requires s.selectedNodeForManipulation == Some(n)
    ensures var r := Rotation(s, Changed, angle);
      && r.scene[n].eulerAngles == Vec3(s.scene[n].eulerAngles.x, angle, s.scene[n].eulerAngles.z)
      && r.scene[n].(eulerAngles := s.scene[n].eulerAngles) == s.scene[n]
      && (forall m :: m in s.scene && m != n ==> m in r.scene && r.scene[m] == s.scene[m])
      && r.scene.Keys == s.scene.Keys
      && r.(scene := s.scene) == s
  {
  }

  // ---------------------------------------------------------------------------
  // Clearing, saving, loading and restoring
  // ---------------------------------------------------------------------------

  /** Detaching one more node extends the detached prefix by that node. */
  lemma DetachAllStep(scene: map<NodeId, PhotoNode>, nodes: seq<NodeId>, i: nat)
    requires i < |nodes| && nodes[i] in scene
    ensures DetachAll(scene, nodes[..i + 1]) == Detach(DetachAll(scene, nodes[..i]), nodes[i])
  {
    assert nodes[..i + 1] == nodes[..i] + [nodes[i]];
  }

  /** Confirming "clear all" empties both lists and the store, detaches every node, and keeps the (now stale) selection. */
  lemma ConfirmClearEmpties(s: Session)
    requires Valid(s)
    ensures var r := ConfirmClear(s);
      && r.photoNodes == [] && r.savedPhotoData == [] && r.stored == None
      && r.selectedNodeForManipulation == s.selectedNodeForManipulation
      && r.selectedImageForPlacement == s.selectedImageForPlacement
      && r.scene.Keys == s.scene.Keys
      && (forall n :: n in r.scene ==> !r.scene[n].inScene && r.scene[n].highlighted == s.scene[n].highlighted)
      && (forall n :: n in s.scene ==> r.scene[n] == s.scene[n].(inScene := false))
      && r.nextId == s.nextId
  {
  }

  /** The save loop is a homomorphism: the records for `a + b` are those for `a` followed by those for `b`. */
  lemma {:induction false} SaveRecordsConcat(a: seq<NodeId>, b: seq<NodeId>, scene: map<NodeId, PhotoNode>,
                                             jpegData: Image -> Option<Bytes>)
    requires forall n :: n in a + b ==> n in scene
    ensures SaveRecords(a + b, scene, jpegData) == SaveRecords(a, scene, jpegData) + SaveRecords(b, scene, jpegData)
    decreases |b|
  {
    if b == [] {
      assert a + b == a;
    } else {
      var b' := b[..|b| - 1];
      assert (a + b)[..|a + b| - 1] == a + b';
      assert (a + b)[|a + b| - 1] == b[|b| - 1];
      SaveRecordsConcat(a, b', scene, jpegData);
    }
  }

  /** One more iteration of the save loop appends the next node's record, if it has one. */
  lemma SaveRecordsStep(nodes: seq<NodeId>, scene: map<NodeId, PhotoNode>, jpegData: Image -> Option<Bytes>, i: nat)
    requires i < |nodes| && forall n :: n in nodes ==> n in scene
    ensures forall n :: n in nodes[..i] ==> n in scene
    ensures SaveRecords(nodes[..i + 1], scene, jpegData) ==
      match RecordOf(scene[nodes[i]], jpegData)
      case None => SaveRecords(nodes[..i], scene, jpegData)
      case Some(photoData) => SaveRecords(nodes[..i], scene, jpegData) + [photoData]
  {
    assert nodes[..i + 1][..i] == nodes[..i];
    assert forall n :: n in nodes[..i] ==> n in nodes;
  }

  /** One node contributes one record if its image encodes and none otherwise. */
  lemma SaveRecordsSingle(n: NodeId, scene: map<NodeId, PhotoNode>, jpegData: Image -> Option<Bytes>)
    requires n in scene
    ensures SaveRecords([n], scene, jpegData) ==
      match RecordOf(scene[n], jpegData) case None => [] case Some(photoData) => [photoData]
  {
    assert [n][..0] == [];
  }

  /** When every image encodes, record k is node k's record. */
  lemma {:induction false} SaveRecordsAllEncode(nodes: seq<NodeId>, scene: map<NodeId, PhotoNode>,
                                                jpegData: Image -> Option<Bytes>)
    requires forall n :: n in nodes ==> n in scene && jpegData(scene[n].image).Some?
    ensures |SaveRecords(nodes, scene, jpegData)| == |nodes|
    ensures forall k :: 0 <= k < |nodes| ==>
              RecordOf(scene[nodes[k]], jpegData) == Some(SaveRecords(nodes, scene, jpegData)[k])
    decreases |nodes|
  {
    if nodes != [] {
      var init := nodes[..|nodes| - 1];
      var last := nodes[|nodes| - 1];
      assert forall n :: n in init ==> n in nodes;
      SaveRecordsAllEncode(init, scene, jpegData);
      var earlier := SaveRecords(init, scene, jpegData);
      var r := SaveRecords(nodes, scene, jpegData);
      assert jpegData(scene[last].image).Some?;
      assert r == earlier + [RecordOf(scene[last], jpegData).value];
      forall k | 0 <= k < |nodes|
        ensures RecordOf(scene[nodes[k]], jpegData) == Some(r[k])
      {
        if k < |init| {
          assert nodes[k] == init[k] && r[k] == earlier[k];
        }
      }
    }
  }

  /** When no image encodes, nothing is recorded. */
  lemma {:induction false} SaveRecordsNoneEncode(nodes: seq<NodeId>, scene: map<NodeId, PhotoNode>,
                                                 jpegData: Image -> Option<Bytes>)
    requires forall n :: n in nodes ==> n in scene && jpegData(scene[n].image).None?
    ensures SaveRecords(nodes, scene, jpegData) == []
    decreases |nodes|
  {
    if nodes != [] {
      var init := nodes[..|nodes| - 1];
      assert forall n :: n in init ==> n in nodes;
      SaveRecordsNoneEncode(init, scene, jpegData);
    }
  }

  /**
   * Save rebuilds the record list from the placed nodes alone, whatever was
   * saved before, writes the store only when the list encodes, and leaves the
   * nodes, the selection and the waiting image alone.
   */
  lemma SaveRebuildsRecords(s: Session, codecs: Codecs, earlier: seq<PhotoData>)
    requires Valid(s)
    ensures var r := Save(s, codecs);
      && r == Save(s.(savedPhotoData := earlier), codecs)
      && r.savedPhotoData == SaveRecords(s.photoNodes, s.scene, codecs.jpegData)
      && |r.savedPhotoData| <= |s.photoNodes|
      && (codecs.encodeRecords(r.savedPhotoData).Some? ==> r.stored == codecs.encodeRecords(r.savedPhotoData))
      && (codecs.encodeRecords(r.savedPhotoData).None? ==> r.stored == s.stored)
      && r.(savedPhotoData := s.savedPhotoData, stored := s.stored) == s
  {
  }

  /** Saving twice in a row is the same as saving once. */
  lemma SaveIsIdempotent(s: Session, codecs: Codecs)
    requires Valid(s)
    ensures Valid(Save(s, codecs)) && Save(Save(s, codecs), codecs) == Save(s, codecs)
  {
  }

  /** Load leaves the records alone when nothing is stored or the stored blob does not decode, and otherwise adopts the decoded list. */
  lemma LoadAdoptsDecodedRecords(s: Session, codecs: Codecs)
    ensures var r := Load(s, codecs);
      && (s.stored.None? || codecs.decodeRecords(s.stored.value).None? ==> r == s)
      && (s.stored.Some? && codecs.decodeRecords(s.stored.value).Some? ==>
            r == s.(savedPhotoData := codecs.decodeRecords(s.stored.value).value))
  {
  }

  /** Restoring traps exactly when some record's image decodes but its position or rotation has fewer than three entries. */
  lemma {:induction false} RestoreTrapsIff(s: Session, records: seq<PhotoData>, imageFromData: Bytes -> Option<Image>)
    ensures RestoreAll(s, records, imageFromData).None? <==>
            exists i :: 0 <= i < |records| && Traps(records[i], imageFromData)
    decreases |records|
  {
    if records != [] {
      var init := records[..|records| - 1];
      var last := records[|records| - 1];
      RestoreTrapsIff(s, init, imageFromData);
      if exists i :: 0 <= i < |init| && Traps(init[i], imageFromData) {
        var i :| 0 <= i < |init| && Traps(init[i], imageFromData);
        assert records[i] == init[i];
      }
      if exists i :: 0 <= i < |records| && Traps(records[i], imageFromData) {
        var i :| 0 <= i < |records| && Traps(records[i], imageFromData);
        if i < |init| {
          assert init[i] == records[i];
        }
      }
    }
  }

  /** The number of records whose image decodes. */
  function DecodableCount(records: seq<PhotoData>, imageFromData: Bytes -> Option<Image>): nat {
    if records == [] then 0
    else DecodableCount(records[..|records| - 1], imageFromData)
         + (if imageFromData(records[|records| - 1].imageData).Some? then 1 else 0)
  }

  /** A restore that does not trap adds exactly one node per record whose image decodes. */
  lemma {:induction false} RestoreAddsOnePerDecodable(s: Session, records: seq<PhotoData>, imageFromData: Bytes -> Option<Image>)
    requires RestoreAll(s, records, imageFromData).Some?
    ensures |RestoreAll(s, records, imageFromData).value.photoNodes| == |s.photoNodes| + DecodableCount(records, imageFromData)
    ensures RestoreAll(s, records, imageFromData).value.nextId == s.nextId + DecodableCount(records, imageFromData)
    decreases |records|
  {
    if records != [] {
      RestoreAddsOnePerDecodable(s, records[..|records| - 1], imageFromData);
    }
  }

  /** A record whose image decodes restores to a node at its stored position and angles, with its stored scale only when that has three entries. */
  lemma RestoreOneRecord(s: Session, photoData: PhotoData, imageFromData: Bytes -> Option<Image>)
    requires imageFromData(photoData.imageData).Some? && !Traps(photoData, imageFromData)
    ensures var r := RestoreOne(s, photoData, imageFromData);
      && r.Some?
      && r.value.photoNodes == s.photoNodes + [s.nextId]
      && var node := r.value.scene[s.nextId];
      && node.image == imageFromData(photoData.imageData).value
      && node.position == FromComponents(photoData.position)
      && node.eulerAngles == FromComponents(photoData.rotation)
      && node.scale == (if |photoData.scale| >= 3 then FromComponents(photoData.scale) else UnitScale)
      && node.inScene && !node.highlighted
  {
  }

  /** A record built without a scale restores to a node of unit scale. */
  lemma DefaultScaleRestoresUnit(s: Session, imageData: Bytes, position: seq<real>, rotation: seq<real>,
                                 imageFromData: Bytes -> Option<Image>)
    requires imageFromData(imageData).Some? && |position| >= 3 && |rotation| >= 3
    ensures var r := RestoreOne(s, PhotoData(imageData, position, rotation), imageFromData);
      r.Some? && r.value.scene[s.nextId].scale == UnitScale
  {
    DefaultScaleIsUnit(imageData, position, rotation);
  }

  /** Records that decode and do not trap. */
  predicate Restorable(records: seq<PhotoData>, imageFromData: Bytes -> Option<Image>) {
    forall k :: 0 <= k < |records| ==> imageFromData(records[k].imageData).Some? && !Traps(records[k], imageFromData)
  }

  /** Node `k` of those appended to `s` in `r` is the one restored from record `k`. */
  predicate RestoredAt(s: Session, r: Session, records: seq<PhotoData>, imageFromData: Bytes -> Option<Image>, k: nat)
    requires Restorable(records, imageFromData) && k < |records|
  {
    && |s.photoNodes| + k < |r.photoNodes|
    && r.photoNodes[|s.photoNodes| + k] == s.nextId + k
    && s.nextId + k in r.scene
    && r.scene[s.nextId + k] == RestoredNode(imageFromData(records[k].imageData).value, records[k]).(inScene := true)
  }

  /** When every record decodes and has full position and rotation, node k of the restored tail comes from record k. */
  lemma {:induction false} RestoreAllInOrder(s: Session, records: seq<PhotoData>, imageFromData: Bytes -> Option<Image>)
    requires Restorable(records, imageFromData)
    ensures RestoreAll(s, records, imageFromData).Some?
    ensures var r := RestoreAll(s, records, imageFromData).value;
      && |r.photoNodes| == |s.photoNodes| + |records|
      && r.nextId == s.nextId + |records|
      && forall k :: 0 <= k < |records| ==> RestoredAt(s, r, records, imageFromData, k)
  {
    RestorableRestores(s, records, imageFromData);
    var r := RestoreAll(s, records, imageFromData).value;
    forall k | 0 <= k < |records|
      ensures RestoredAt(s, r, records, imageFromData, k)
    {
      PlacedFromIsRestoredAt(s, r, records, imageFromData, k);
    }
  }

  /** Records that all decode and none of which traps restore, each adding one node. */
  lemma RestorableRestores(s: Session, records: seq<PhotoData>, imageFromData: Bytes -> Option<Image>)
    requires Restorable(records, imageFromData)
    ensures RestoreAll(s, records, imageFromData).Some?
    ensures var r := RestoreAll(s, records, imageFromData).value;
      && |r.photoNodes| == |s.photoNodes| + |records|
      && r.nextId == s.nextId + |records|
      && forall k :: 0 <= k < |records| ==> PlacedFrom(s, r, records, imageFromData, k)
  {
    RestoreTrapsIff(s, records, imageFromData);
    assert forall d :: d in records ==> imageFromData(d.imageData).Some?;
    AllDecodableCount(records, imageFromData);
    RestoreAddsOnePerDecodable(s, records, imageFromData);
    RestoreAllKeepsRecordOrder(s, records, imageFromData);
  }

  /** When every record decodes, the k-th decodable record is record k. */
  lemma PlacedFromIsRestoredAt(s: Session, r: Session, records: seq<PhotoData>, imageFromData: Bytes -> Option<Image>, k: nat)
    requires Restorable(records, imageFromData) && k < |records|
    requires PlacedFrom(s, r, records, imageFromData, k)
    ensures RestoredAt(s, r, records, imageFromData, k)
  {
    assert forall d :: d in records[..k] ==> d in records;
    AllDecodableCount(records[..k], imageFromData);
  }

  /** The restore loop over `a + b` is the loop over `a` followed, unless it trapped, by the loop over `b`. */
  lemma {:induction false} RestoreAllConcat(s: Session, a: seq<PhotoData>, b: seq<PhotoData>, imageFromData: Bytes -> Option<Image>)
    ensures RestoreAll(s, a + b, imageFromData) ==
      match RestoreAll(s, a, imageFromData)
      case None => None
      case Some(t) => RestoreAll(t, b, imageFromData)
    decreases |b|
  {
    if b == [] {
      assert a + b == a;
    } else {
      var b' := b[..|b| - 1];
      assert (a + b)[..|a + b| - 1] == a + b';
      assert (a + b)[|a + b| - 1] == b[|b| - 1];
      RestoreAllConcat(s, a, b', imageFromData);
    }
  }

  /**
   * Record `k`, when its image decodes, became the node appended after the
   * nodes restored from the decodable records before it: it sits at that
   * position of the list, under the id allocated then, with the record's layout.
   */
  predicate PlacedFrom(s: Session, r: Session, records: seq<PhotoData>, imageFromData: Bytes -> Option<Image>, k: nat)
    requires k < |records|
  {
    var j := DecodableCount(records[..k], imageFromData);
    && imageFromData(records[k].imageData).Some?
    && |records[k].position| >= 3 && |records[k].rotation| >= 3
    && |s.photoNodes| + j < |r.photoNodes|
    && r.photoNodes[|s.photoNodes| + j] == s.nextId + j
    && s.nextId + j in r.scene
    && r.scene[s.nextId + j] == RestoredNode(imageFromData(records[k].imageData).value, records[k]).(inScene := true)
  }

  /** Restore keeps record order for any records: each decodable record is placed after those before it, undecodable ones are skipped. */
  lemma {:induction false} RestoreAllKeepsRecordOrder(s: Session, records: seq<PhotoData>, imageFromData: Bytes -> Option<Image>)
    requires RestoreAll(s, records, imageFromData).Some?
    ensures forall k :: 0 <= k < |records| && imageFromData(records[k].imageData).Some? ==>
      PlacedFrom(s, RestoreAll(s, records, imageFromData).value, records, imageFromData, k)
    decreases |records|
  {
    if records != [] {
      var init := records[..|records| - 1];
      var last := records[|records| - 1];
      RestoreAllKeepsRecordOrder(s, init, imageFromData);
      RestoreAddsOnePerDecodable(s, init, imageFromData);
      var s1 := RestoreAll(s, init, imageFromData).value;
      var r := RestoreAll(s, records, imageFromData).value;
      assert RestoreOne(s1, last, imageFromData) == Some(r);
      forall k | 0 <= k < |records| && imageFromData(records[k].imageData).Some?
        ensures PlacedFrom(s, r, records, imageFromData, k)
      {
        if k < |init| {
          assert init[k] == records[k];
          assert records[..k] == init[..k];
          assert PlacedFrom(s, s1, init, imageFromData, k);
        } else {
          assert records[..k] == init;
          assert r == AddPhotoNode(s1, RestoredNode(imageFromData(last.imageData).value, last));
        }
      }
    }
  }

  lemma {:induction false} AllDecodableCount(records: seq<PhotoData>, imageFromData: Bytes -> Option<Image>)
    requires forall d :: d in records ==> imageFromData(d.imageData).Some?
    ensures DecodableCount(records, imageFromData) == |records|
    decreases |records|
  {
    if records != [] {
      var init := records[..|records| - 1];
      assert forall d :: d in init ==> d in records;
      AllDecodableCount(init, imageFromData);
    }
  }

  /** Decoding undoes encoding of a record list. */
  ghost predicate RecordCodingInverts(codecs: Codecs) {
    forall records :: codecs.encodeRecords(records).Some? ==>
      codecs.decodeRecords(codecs.encodeRecords(records).value) == Some(records)
  }

  /** Every JPEG the encoder produces decodes to some image. */
  ghost predicate JpegOutputDecodes(codecs: Codecs) {
    forall image :: codecs.jpegData(image).Some? ==> codecs.imageFromData(codecs.jpegData(image).value).Some?
  }

  /** A node restored from a node's saved record has that node's position, angles and scale. */
  lemma RecordRoundTrip(node: PhotoNode, jpegData: Image -> Option<Bytes>, photoData: PhotoData, image: Image)
    requires RecordOf(node, jpegData) == Some(photoData)
    ensures |photoData.position| == 3 && |photoData.rotation| == 3 && |photoData.scale| == 3
    ensures var restored := RestoredNode(image, photoData);
      && restored.position == node.position
      && restored.eulerAngles == node.eulerAngles
      && restored.scale == node.scale
  {
  }

  /** With record coding that inverts, loading what a successful save stored yields the saved records. */
  lemma LoadAfterSave(s: Session, codecs: Codecs)
    requires Valid(s) && RecordCodingInverts(codecs)
    requires codecs.encodeRecords(SaveRecords(s.photoNodes, s.scene, codecs.jpegData)).Some?
    ensures Load(Initial(Save(s, codecs).stored), codecs) ==
            Initial(Save(s, codecs).stored).(savedPhotoData := SaveRecords(s.photoNodes, s.scene, codecs.jpegData))
  {
  }

  /** When every placed image encodes and every JPEG decodes, the saved records restore without a trap. */
  lemma SavedRecordsRestorable(s: Session, codecs: Codecs)
    requires Valid(s) && JpegOutputDecodes(codecs)
    requires forall n :: n in s.photoNodes ==> codecs.jpegData(s.scene[n].image).Some?
    ensures Restorable(SaveRecords(s.photoNodes, s.scene, codecs.jpegData), codecs.imageFromData)
  {
    var records := SaveRecords(s.photoNodes, s.scene, codecs.jpegData);
    SaveRecordsAllEncode(s.photoNodes, s.scene, codecs.jpegData);
    forall k | 0 <= k < |records|
      ensures codecs.imageFromData(records[k].imageData).Some? && !Traps(records[k], codecs.imageFromData)
    {
      var node := s.scene[s.photoNodes[k]];
      assert RecordOf(node, codecs.jpegData) == Some(records[k]);
      assert records[k].imageData == codecs.jpegData(node.image).value;
    }
  }

  /**
   * Save, then when the screen next opens load and restore: when record coding inverts,
   * every JPEG decodes, every placed image encodes and the list encodes, the new
   * screen has one node per saved node, in the same order, with the same
   * position, angles and scale, attached and unhighlighted.
   */
  lemma SaveThenRelaunchRestoresLayout(s: Session, codecs: Codecs)
    requires Valid(s) && RecordCodingInverts(codecs) && JpegOutputDecodes(codecs)
    requires forall n :: n in s.photoNodes ==> codecs.jpegData(s.scene[n].image).Some?
    requires codecs.encodeRecords(SaveRecords(s.photoNodes, s.scene, codecs.jpegData)).Some?
    ensures Restore(Load(Initial(Save(s, codecs).stored), codecs), codecs).Some?
    ensures var t := Restore(Load(Initial(Save(s, codecs).stored), codecs), codecs).value;
      && |t.photoNodes| == |s.photoNodes|
      && forall k :: 0 <= k < |s.photoNodes| ==> SameLayout(s.scene[s.photoNodes[k]], t, t.photoNodes[k])
  {
    var records := SaveRecords(s.photoNodes, s.scene, codecs.jpegData);
    SaveRecordsAllEncode(s.photoNodes, s.scene, codecs.jpegData);
    LoadAfterSave(s, codecs);
    SavedRecordsRestorable(s, codecs);
    var loaded := Initial(Save(s, codecs).stored).(savedPhotoData := records);
    RestoreAllInOrder(loaded, records, codecs.imageFromData);
    var t := RestoreAll(loaded, records, codecs.imageFromData).value;
    assert Restore(Load(Initial(Save(s, codecs).stored), codecs), codecs) == Some(t);
    RestoredRecordsKeepLayout(s.photoNodes, s.scene, codecs.jpegData, records, loaded, t, codecs.imageFromData);
  }

  /** Restoring, after an empty list, the records saved from `nodes` lays node k out as `nodes[k]` was. */
  lemma RestoredRecordsKeepLayout(nodes: seq<NodeId>, scene: map<NodeId, PhotoNode>, jpegData: Image -> Option<Bytes>,
                                  records: seq<PhotoData>, s: Session, t: Session, imageFromData: Bytes -> Option<Image>)
    requires |records| == |nodes| && forall n :: n in nodes ==> n in scene
    requires forall k :: 0 <= k < |nodes| ==> RecordOf(scene[nodes[k]], jpegData) == Some(records[k])
    requires Restorable(records, imageFromData) && s.photoNodes == []
    requires forall k :: 0 <= k < |records| ==> RestoredAt(s, t, records, imageFromData, k)
    ensures |nodes| <= |t.photoNodes|
    ensures forall k :: 0 <= k < |nodes| ==> SameLayout(scene[nodes[k]], t, t.photoNodes[k])
  {
    if nodes != [] {
      assert RestoredAt(s, t, records, imageFromData, |nodes| - 1);
    }
    forall k | 0 <= k < |nodes|
      ensures SameLayout(scene[nodes[k]], t, t.photoNodes[k])
    {
      assert RestoredAt(s, t, records, imageFromData, k);
      RecordRoundTrip(scene[nodes[k]], jpegData, records[k], imageFromData(records[k].imageData).value);
    }
  }

  /** Node `n` of `t` is attached, unhighlighted, and placed, turned and scaled like `before`. */
  predicate SameLayout(before: PhotoNode, t: Session, n: NodeId) {
    && n in t.scene
    && t.scene[n].position == before.position
    && t.scene[n].eulerAngles == before.eulerAngles
    && t.scene[n].scale == before.scale
    && t.scene[n].inScene && !t.scene[n].highlighted
  }

  // ---------------------------------------------------------------------------
  // Highlighting
  // ---------------------------------------------------------------------------

  /** At most one node is highlighted, and only the selected one. */
  predicate SingleHighlight(s: Session) {
    forall n :: n in s.scene && s.scene[n].highlighted ==> s.selectedNodeForManipulation == Some(n)
  }

  /**
   * Every event but a long press keeps at most the selected node highlighted,
   * given that a delete is confirmed only for the selected node, the only node
   * whose alert a tap presents.
   */
  lemma StepKeepsSingleHighlight(s: Session, e: Event, codecs: Codecs)
    requires Valid(s) && SingleHighlight(s)
    requires !e.LongPressAt?
    requires e.DeleteConfirmed? ==> s.selectedNodeForManipulation == Some(e.node)
    ensures Step(s, e, codecs).Some? ==> SingleHighlight(Step(s, e, codecs).value)
  {
    match e
    case RestoreFired =>
      if Restore(s, codecs).Some? {
        RestoreAllAppends(s, s.savedPhotoData, codecs.imageFromData);
      }
    case _ =>
  }

  /** A long press can leave two nodes highlighted: the previous selection is not un-highlighted. */
  lemma LongPressCanHighlightTwo(s: Session, m: NodeId, n: NodeId)
    requires Valid(s) && SingleHighlight(s)
    requires s.selectedNodeForManipulation == Some(m) && s.scene[m].highlighted
    requires n in s.photoNodes && n != m
    ensures var r := LongPress(s, Began, Some(n));
      r.scene[m].highlighted && r.scene[n].highlighted && !SingleHighlight(r)
  {
  }

  /**
   * Runs without long presses, each confirmed delete being for the selected
   * node. A step that traps ends the run, so the condition says nothing
   * about the events after it.
   */
  ghost predicate TapDriven(s: Session, events: seq<Event>, codecs: Codecs)
    requires Valid(s)
    decreases |events|
  {
    events == [] ||
    (&& !events[0].LongPressAt?
     && (events[0].DeleteConfirmed? ==> s.selectedNodeForManipulation == Some(events[0].node))
     && (Step(s, events[0], codecs).None? ||
         (StepKeepsValid(s, events[0], codecs);
          TapDriven(Step(s, events[0], codecs).value, events[1..], codecs))))
  }

  /** The state after running `events`, or `None` if a step traps. */
  function Run(s: Session, events: seq<Event>, codecs: Codecs): Option<Session>
    requires Valid(s)
    decreases |events|
  {
    if events == [] then Some(s)
    else match Step(s, events[0], codecs)
      case None => None
      case Some(s1) =>
        StepKeepsValid(s, events[0], codecs);
        Run(s1, events[1..], codecs)
  }

  /**
   * Without long presses, a run of events that does not trap ends with at most
   * the selected node highlighted; a run without a restore never traps.
   */
  lemma {:induction false} TapDrivenRunKeepsSingleHighlight(s: Session, events: seq<Event>, codecs: Codecs)
    requires Valid(s) && SingleHighlight(s)
    requires TapDriven(s, events, codecs)
    ensures (forall i :: 0 <= i < |events| ==> !events[i].RestoreFired?) ==> Run(s, events, codecs).Some?
    ensures Run(s, events, codecs).Some? ==>
      Valid(Run(s, events, codecs).value) && SingleHighlight(Run(s, events, codecs).value)
    decreases |events|
  {
    if events != [] && Step(s, events[0], codecs).Some? {
      StepKeepsValid(s, events[0], codecs);
      StepKeepsSingleHighlight(s, events[0], codecs);
      assert forall i :: 0 <= i < |events[1..]| ==> events[1..][i] == events[i + 1];
      TapDrivenRunKeepsSingleHighlight(Step(s, events[0], codecs).value, events[1..], codecs);
    }
  }
}
