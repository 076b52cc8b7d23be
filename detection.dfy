/** get_detection_gt_for_image: one {"class_id", "mask"} record per
    annotation of the image, the mask being the rasterised bounding box.
    The annotation query (getAnnIds/loadAnns) and the image size (loadImgs)
    become parameters. */
module DetectionGt {
  import opened Common
  import opened BoxMask

  /** The parts of a COCO annotation the detection view reads. */
  datatype BoxAnnotation = BoxAnnotation(categoryId: int, corners: Corners)

  /** A detection record: no instance id, and a freshly allocated mask. */
  datatype Detection = Detection(classId: int, mask: array2<int>)

  /** Annotation k is the first whose category the mapping lacks: the
      lookup that raises the KeyError. */
  predicate FirstUnmapped(anns: seq<BoxAnnotation>, catToClass: map<int, int>, k: int)
  {
    0 <= k < |anns| && anns[k].categoryId !in catToClass &&
    forall j :: 0 <= j < k ==> anns[j].categoryId in catToClass
  }

  method GetDetectionGt(height: nat, width: nat, anns: seq<BoxAnnotation>, catToClass: map<int, int>)
    returns (r: Result<seq<Detection>, Error>)
    ensures r.Success? <==> forall k :: 0 <= k < |anns| ==> anns[k].categoryId in catToClass
    ensures r.Failure? ==> exists k :: FirstUnmapped(anns, catToClass, k) && r.error == CategoryNotMapped(anns[k].categoryId)
    ensures r.Success? ==> |r.value| == |anns| && forall k :: 0 <= k < |anns| ==>
      r.value[k].classId == catToClass[anns[k].categoryId] && fresh(r.value[k].mask) &&
      r.value[k].mask.Length0 == height && r.value[k].mask.Length1 == width
    ensures r.Success? ==> forall k, i, j :: 0 <= k < |anns| && 0 <= i < height && 0 <= j < width ==>
      r.value[k].mask[i, j] == BoxGrid(anns[k].corners, height, width).cells[i][j]
    ensures r.Success? ==> forall k, l :: 0 <= k < l < |anns| ==> r.value[k].mask != r.value[l].mask
  {
    var detections: seq<Detection> := [];
    var n := 0;
    while n < |anns|
      invariant 0 <= n <= |anns| && |detections| == n
      invariant forall k :: 0 <= k < n ==> anns[k].categoryId in catToClass
      invariant forall k :: 0 <= k < n ==>
        detections[k].classId == catToClass[anns[k].categoryId] && fresh(detections[k].mask) &&
        detections[k].mask.Length0 == height && detections[k].mask.Length1 == width
      invariant forall k, i, j :: 0 <= k < n && 0 <= i < height && 0 <= j < width ==>
        detections[k].mask[i, j] == BoxGrid(anns[k].corners, height, width).cells[i][j]
      invariant forall k, l :: 0 <= k < l < n ==> detections[k].mask != detections[l].mask
    {
      var ann := anns[n];
      if ann.categoryId !in catToClass {
        return Failure(CategoryNotMapped(ann.categoryId));
      }
      var classId := catToClass[ann.categoryId];
      var mask := BboxToMask(ann.corners, height, width);
      detections := detections + [Detection(classId, mask)];
      n := n + 1;
    }
    return Success(detections);
  }
}
