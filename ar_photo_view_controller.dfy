/**
 * The AR photo screen as the object the app has
 * (PhotoLibrary/ARPhotoViewController.swift): its fields are updated in place
 * by the gesture handlers, the buttons and the alert actions. Each method is
 * proved to move the abstract state `Model()` exactly as the matching function
 * of ARSession does, and each handler method also keeps the screen's invariant.
 */
module ARPhotoView {
  import opened Wrappers
  import opened PhotoRecords
  import opened ARSession
  import SessionProperties

  class ARPhotoViewController {
    var photoNodes: seq<NodeId>
    var savedPhotoData: seq<PhotoData>
    var selectedNodeForManipulation: Option<NodeId>
    var selectedImageForPlacement: Option<Image>
    /** Every node created so far, with its attributes; the scene graph of the AR view. */
    var scene: map<NodeId, PhotoNode>
    /** The id the next created node gets. */
    var nextId: NodeId
    /** The "SavedPhotoData" entry of the key-value store. */
    var stored: Option<Bytes>
    /** The image and JSON codecs the screen calls. */
    const codecs: Codecs

    function Model(): Session
      reads this
    {
      Session(photoNodes, savedPhotoData, selectedNodeForManipulation, selectedImageForPlacement, scene, nextId, stored)
    }

    predicate Valid()
      reads this
    {
      ARSession.Valid(Model())
    }

    /** A screen before `viewDidLoad`: nothing placed or saved in memory; `stored` is what the store holds. */
    constructor (codecs: Codecs, stored: Option<Bytes>)
      ensures Model() == Initial(stored) && Valid()
      ensures this.codecs == codecs
    {
      photoNodes := [];
      savedPhotoData := [];
      selectedNodeForManipulation := None;
      selectedImageForPlacement := None;
      scene := map[];
      nextId := 0;
      this.stored := stored;
      this.codecs := codecs;
    }

    method HighlightNode(node: NodeId, highlight: bool)
      modifies this
      ensures Model() == old(Model()).(scene := Highlight(old(scene), node, highlight))
    {
      if node in scene {
        scene := scene[node := scene[node].(highlighted := highlight)];
      }
    }

    /** Attaches a newly created node to the scene and appends it to the placed list. */
    method AddPhotoNode(photoNode: PhotoNode)
      modifies this
      ensures Model() == ARSession.AddPhotoNode(old(Model()), photoNode)
    {
      scene := scene[nextId := photoNode.(inScene := true)];
      photoNodes := photoNodes + [nextId];
      nextId := nextId + 1;
    }

    method PlacePhoto(image: Image, surfacePoint: Vec3)
      modifies this
      ensures Model() == ARSession.PlacePhoto(old(Model()), image, surfacePoint)
    {
      var photoNode := CreatePhotoNode(image);
      photoNode := photoNode.(position := Vec3(surfacePoint.x, surfacePoint.y + HoverHeight, surfacePoint.z));
      AddPhotoNode(photoNode);
    }

    method HandleTap(hit: Option<NodeId>, surface: Option<Vec3>)
      requires Valid()
      modifies this
      ensures Model() == Tap(old(Model()), hit, surface) && Valid()
    {
      SessionProperties.TapKeepsValid(Model(), hit, surface);
      if hit.Some? && hit.value in photoNodes {
        var hitNode := hit.value;
        if selectedNodeForManipulation == Some(hitNode) {
          // The delete alert is presented; DeleteConfirmed runs if the user confirms.
          return;
        }
        if selectedNodeForManipulation.Some? {
          HighlightNode(selectedNodeForManipulation.value, false);
        }
        selectedNodeForManipulation := Some(hitNode);
        HighlightNode(hitNode, true);
        return;
      }
      if selectedNodeForManipulation.Some? {
        HighlightNode(selectedNodeForManipulation.value, false);
        selectedNodeForManipulation := None;
      }
      if selectedImageForPlacement.None? {
        return;
      }
      var selectedImage := selectedImageForPlacement.value;
      if surface.Some? {
        PlacePhoto(selectedImage, surface.value);
        selectedImageForPlacement := None;
      }
    }

    /** The delete action of the alert a tap on the selected node presents. */
    method DeleteConfirmed(hitNode: NodeId)
      requires Valid()
      modifies this
      ensures Model() == ConfirmDelete(old(Model()), hitNode) && Valid()
    {
      SessionProperties.ConfirmDeleteKeepsValid(Model(), hitNode);
      HighlightNode(hitNode, false);
      if hitNode in scene {
        scene := scene[hitNode := scene[hitNode].(inScene := false)];
      }
      var index := FirstIndex(photoNodes, hitNode);
      if index.Some? {
        photoNodes := photoNodes[..index.value] + photoNodes[index.value + 1..];
      }
      selectedNodeForManipulation := None;
    }

    method HandleLongPress(state: GestureState, hit: Option<NodeId>)
      requires Valid()
      modifies this
      ensures Model() == LongPress(old(Model()), state, hit) && Valid()
    {
      SessionProperties.GesturesKeepValid(Model(), state, hit, 0.0);
      if state != Began {
        return;
      }
      if hit.Some? && hit.value in photoNodes {
        selectedNodeForManipulation := hit;
        HighlightNode(hit.value, true);
      }
    }

    method HandlePinch(state: GestureState, factor: real)
      requires Valid()
      modifies this
      ensures Model() == Pinch(old(Model()), state, factor) && Valid()
    {
      SessionProperties.GesturesKeepValid(Model(), state, None, factor);
      if selectedNodeForManipulation.None? {
        return;
      }
      var selectedNode := selectedNodeForManipulation.value;
      if state == Changed {
        scene := scene[selectedNode := scene[selectedNode].(scale := Vec3(factor, factor, factor))];
      }
    }

    method HandleRotation(state: GestureState, angle: real)
      requires Valid()
      modifies this
      ensures Model() == Rotation(old(Model()), state, angle) && Valid()
    {
      SessionProperties.GesturesKeepValid(Model(), state, None, angle);
      if selectedNodeForManipulation.None? {
        return;
      }
      var selectedNode := selectedNodeForManipulation.value;
      if state == Changed {
        var angles := scene[selectedNode].eulerAngles;
        scene := scene[selectedNode := scene[selectedNode].(eulerAngles := angles.(y := angle))];
      }
    }

    /** The image picker delegate's result. */
    method ImagePicked(image: Image)
      requires Valid()
      modifies this
      ensures Model() == PickImage(old(Model()), image) && Valid()
    {
      selectedImageForPlacement := Some(image);
    }

    /** The confirm action of the clear-all alert. */
    method ClearAllConfirmed()
      requires Valid()
      modifies this
      ensures Model() == ConfirmClear(old(Model())) && Valid()
    {
      SessionProperties.ConfirmClearKeepsValid(Model());
      for i := 0 to |photoNodes|
        modifies this`scene
        invariant scene == DetachAll(old(scene), photoNodes[..i])
      {
        var node := photoNodes[i];
        SessionProperties.DetachAllStep(old(scene), photoNodes, i);
        scene := scene[node := scene[node].(inScene := false)];
      }
      assert photoNodes[..|photoNodes|] == photoNodes;
      photoNodes := [];
      savedPhotoData := [];
      stored := None;
    }

    method SaveCurrentPhotoPositions()
      requires Valid()
      modifies this
      ensures Model() == Save(old(Model()), codecs) && Valid()
    {
      SessionProperties.SaveKeepsValid(Model(), codecs);
      CollectRecords();
      var encoded := codecs.encodeRecords(savedPhotoData);
      if encoded.Some? {
        stored := encoded;
      }
    }

    /** The loop of `saveCurrentPhotoPositions`: one record per placed node whose image encodes, in order. */
    method CollectRecords()
      requires forall n :: n in photoNodes ==> n in scene
      modifies this`savedPhotoData
      ensures savedPhotoData == SaveRecords(photoNodes, scene, codecs.jpegData)
    {
      savedPhotoData := [];
      for i := 0 to |photoNodes|
        invariant forall n :: n in photoNodes[..i] ==> n in scene
        invariant savedPhotoData == SaveRecords(photoNodes[..i], scene, codecs.jpegData)
      {
        var node := scene[photoNodes[i]];
        SessionProperties.SaveRecordsStep(photoNodes, scene, codecs.jpegData, i);
        var imageData := codecs.jpegData(node.image);
        if imageData.Some? {
          var photoData := PhotoData(imageData.value, Components(node.position),
                                        Components(node.eulerAngles), Components(node.scale));
          savedPhotoData := savedPhotoData + [photoData];
        }
      }
      assert photoNodes[..|photoNodes|] == photoNodes;
    }

    method LoadSavedPhotos()
      requires Valid()
      modifies this
      ensures Model() == Load(old(Model()), codecs) && Valid()
    {
      if stored.None? {
        return;
      }
      var decoded := codecs.decodeRecords(stored.value);
      if decoded.None? {
        return;
      }
      savedPhotoData := decoded.value;
    }

    /**
     * The delayed restore. `trapped` is set when a record whose image decodes
     * has fewer than three position or rotation entries: the source indexes
     * them unchecked, which stops the process, so nothing after it matters.
     */
    method RestoreSavedPhotos() returns (trapped: bool)
      requires Valid()
      modifies this
      ensures trapped <==> Restore(old(Model()), codecs).None?
      ensures !trapped ==> Model() == Restore(old(Model()), codecs).value && Valid()
    {
      var records := savedPhotoData;
      for i := 0 to |records|
        invariant RestoreAll(old(Model()), records[..i], codecs.imageFromData) == Some(Model())
      {
        assert records[..i + 1][..i] == records[..i];
        var photoData := records[i];
        var image := codecs.imageFromData(photoData.imageData);
        if image.Some? {
          if |photoData.position| < 3 || |photoData.rotation| < 3 {
            trapped := true;
            SessionProperties.RestoreTrapsIff(old(Model()), records[..i + 1], codecs.imageFromData);
            SessionProperties.RestoreTrapsIff(old(Model()), records, codecs.imageFromData);
            assert records[..i + 1][i] == records[i];
            return;
          }
          var photoNode := CreatePhotoNode(image.value);
          photoNode := photoNode.(position := FromComponents(photoData.position),
                                  eulerAngles := FromComponents(photoData.rotation));
          if |photoData.scale| >= 3 {
            photoNode := photoNode.(scale := FromComponents(photoData.scale));
          }
          AddPhotoNode(photoNode);
        }
      }
      assert records[..|records|] == records;
      trapped := false;
      SessionProperties.RestoreKeepsValid(old(Model()), codecs);
    }
  }
}
