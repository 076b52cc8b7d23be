/** The panoptic builder: index the panoptic annotation container by image
    id, decode an image's segmentation PNG into a segment-id map, and emit
    one {"instance_id", "class_id", "mask"} record per segment, the mask
    being the pixels whose id equals the segment's. */
module PanopticGt {
  import opened Common
  import opened PanopticCodec

  datatype Segment = Segment(id: int, categoryId: int)

  /** An entry of the container's "images" list. */
  datatype ImageInfo = ImageInfo(id: int, width: nat, height: nat, fileName: string)

  /** An entry of the container's "annotations" list. */
  datatype PanopticAnnotation = PanopticAnnotation(imageId: int, fileName: string, segmentsInfo: seq<Segment>)

  /** The two dictionaries index_panoptic_structures returns. */
  datatype PanopticIndex = PanopticIndex(imgIdToImg: map<int, ImageInfo>, imgIdToAnn: map<int, PanopticAnnotation>)

  /** The output of get_panoptic_gt_for_image: the records and (H, W). */
  datatype PanopticGroundTruth = PanopticGroundTruth(instances: seq<GroundTruth>, height: nat, width: nat)

  /** The dict comprehension {key(e): e for e in s}: a later entry with the
      same key overwrites an earlier one. */
  function IndexBy<T>(s: seq<T>, key: T -> int): (m: map<int, T>)
    ensures m.Keys == set i | 0 <= i < |s| :: key(s[i])
    ensures forall x :: x in m ==> key(m[x]) == x
    ensures forall i :: 0 <= i < |s| && (forall j :: i < j < |s| ==> key(s[j]) != key(s[i])) ==>
      m[key(s[i])] == s[i]
  {
    if s == [] then map[]
    else
      var p := s[..|s| - 1];
      var last := s[|s| - 1];
      var m := IndexBy(p, key)[key(last) := last];
      assert m.Keys == set i | 0 <= i < |s| :: key(s[i]) by {
        forall x | x in m.Keys ensures x in set i | 0 <= i < |s| :: key(s[i]) {
          if x != key(last) {
            var i :| 0 <= i < |p| && key(p[i]) == x;
            assert key(s[i]) == x;
          }
        }
        forall i | 0 <= i < |s| ensures key(s[i]) in m.Keys {
          if i < |p| { assert key(p[i]) == key(s[i]); }
        }
      }
      forall i | 0 <= i < |s| && (forall j :: i < j < |s| ==> key(s[j]) != key(s[i]))
        ensures m[key(s[i])] == s[i]
      {
        if i < |p| {
          assert key(last) != key(s[i]);
          assert p[i] == s[i];
        }
      }
      m
  }

  /** index_panoptic_structures: image id -> image entry, and image id ->
      annotation entry (keyed by its "image_id"). */
  function IndexPanoptic(images: seq<ImageInfo>, annotations: seq<PanopticAnnotation>): (idx: PanopticIndex)
    ensures idx.imgIdToImg.Keys == set i | 0 <= i < |images| :: images[i].id
    ensures forall x :: x in idx.imgIdToImg ==> idx.imgIdToImg[x].id == x
    ensures forall i :: 0 <= i < |images| && (forall j :: i < j < |images| ==> images[j].id != images[i].id) ==>
      idx.imgIdToImg[images[i].id] == images[i]
    ensures idx.imgIdToAnn.Keys == set i | 0 <= i < |annotations| :: annotations[i].imageId
    ensures forall x :: x in idx.imgIdToAnn ==> idx.imgIdToAnn[x].imageId == x
    ensures forall i :: 0 <= i < |annotations| && (forall j :: i < j < |annotations| ==> annotations[j].imageId != annotations[i].imageId) ==>
      idx.imgIdToAnn[annotations[i].imageId] == annotations[i]
  {
    PanopticIndex(IndexBy(images, (img: ImageInfo) => img.id), IndexBy(annotations, (a: PanopticAnnotation) => a.imageId))
  }

  /** (seg_id_map == seg_id).astype(np.uint8). */
  function SegmentMask(ids: Grid<int>, segId: int): (mask: Grid<int>)
    requires ids.Valid()
    ensures mask.Valid() && mask.height == ids.height && mask.width == ids.width
    ensures Binary(mask)
    ensures forall r, c :: 0 <= r < ids.height && 0 <= c < ids.width ==>
      (mask.cells[r][c] == 1 <==> ids.cells[r][c] == segId)
  {
    Grid(ids.height, ids.width,
      seq(ids.height, r requires 0 <= r < ids.height =>
        seq(ids.width, c requires 0 <= c < ids.width => if ids.cells[r][c] == segId then 1 else 0)))
  }

  /** How many of the records' masks set pixel (r, c). */
  function Coverage(records: seq<GroundTruth>, r: int, c: int): nat
  {
    if records == [] then 0
    else
      var m := records[0].mask;
      (if 0 <= r < |m.cells| && 0 <= c < |m.cells[r]| && m.cells[r][c] == 1 then 1 else 0)
      + Coverage(records[1..], r, c)
  }

  predicate UniqueSegmentIds(segs: seq<Segment>)
  {
    forall i, j :: 0 <= i < j < |segs| ==> segs[i].id != segs[j].id
  }

  /** With distinct segment ids the segment masks are pairwise disjoint and
      together cover exactly the pixels whose id is one of the segments':
      each pixel is set in one mask if its id is listed and in none if not. */
  lemma {:induction false} SegmentMasksPartition(ids: Grid<int>, segs: seq<Segment>, records: seq<GroundTruth>, r: int, c: int)
    requires ids.Valid() && UniqueSegmentIds(segs)
    requires |records| == |segs|
    requires forall k :: 0 <= k < |segs| ==> records[k].mask == SegmentMask(ids, segs[k].id)
    requires 0 <= r < ids.height && 0 <= c < ids.width
    ensures Coverage(records, r, c) == if exists k :: 0 <= k < |segs| && segs[k].id == ids.cells[r][c] then 1 else 0
  {
    if segs != [] {
      var tail := segs[1..];
      assert UniqueSegmentIds(tail);
      SegmentMasksPartition(ids, tail, records[1..], r, c);
      var here := ids.cells[r][c] == segs[0].id;
      if here {
        forall k | 0 <= k < |tail| ensures tail[k].id != ids.cells[r][c] {
          assert tail[k] == segs[k + 1];
        }
      } else {
        if exists k :: 0 <= k < |segs| && segs[k].id == ids.cells[r][c] {
          var k :| 0 <= k < |segs| && segs[k].id == ids.cells[r][c];
          assert tail[k - 1] == segs[k];
        }
        if exists k :: 0 <= k < |tail| && tail[k].id == ids.cells[r][c] {
          var k :| 0 <= k < |tail| && tail[k].id == ids.cells[r][c];
          assert segs[k + 1] == tail[k];
        }
      }
    }
  }

  /** Annotation segment k is the first whose category the mapping lacks. */
  predicate FirstUnmapped(segs: seq<Segment>, catToClass: map<int, int>, k: int)
  {
    0 <= k < |segs| && segs[k].categoryId !in catToClass &&
    forall j :: 0 <= j < k ==> segs[j].categoryId in catToClass
  }

  /** The image entry and annotation entry exist and the annotation's PNG
      is in the mask directory. */
  predicate Located(imgId: int, idx: PanopticIndex, masksDir: map<string, Grid<seq<int>>>)
  {
    imgId in idx.imgIdToImg && imgId in idx.imgIdToAnn && idx.imgIdToAnn[imgId].fileName in masksDir
  }

  /** get_panoptic_gt_for_image from the lookups on. The mask directory is
      given as the decoded RGB grid of each PNG file it holds. */
  method GetPanopticGt(imgId: int, idx: PanopticIndex, catToClass: map<int, int>, masksDir: map<string, Grid<seq<int>>>)
    returns (r: Result<PanopticGroundTruth, Error>)
    requires Located(imgId, idx, masksDir) ==> IsRgbImage(masksDir[idx.imgIdToAnn[imgId].fileName])
    ensures imgId !in idx.imgIdToImg ==> r == Failure(ImageNotIndexed(imgId))
    ensures imgId in idx.imgIdToImg && imgId !in idx.imgIdToAnn ==> r == Failure(AnnotationNotIndexed(imgId))
    ensures imgId in idx.imgIdToImg && imgId in idx.imgIdToAnn && idx.imgIdToAnn[imgId].fileName !in masksDir ==>
      r == Failure(MaskFileNotFound(idx.imgIdToAnn[imgId].fileName))
    ensures Located(imgId, idx, masksDir) ==>
      var segs := idx.imgIdToAnn[imgId].segmentsInfo;
      && (r.Success? <==> forall k :: 0 <= k < |segs| ==> segs[k].categoryId in catToClass)
      && (r.Failure? ==> exists k :: FirstUnmapped(segs, catToClass, k) && r.error == CategoryNotMapped(segs[k].categoryId))
    ensures r.Success? ==> Located(imgId, idx, masksDir)
    ensures r.Success? && Located(imgId, idx, masksDir) ==>
      var segs := idx.imgIdToAnn[imgId].segmentsInfo;
      var ids := RgbToId(masksDir[idx.imgIdToAnn[imgId].fileName]);
      && r.value.height == ids.height && r.value.width == ids.width
      && |r.value.instances| == |segs|
      && forall k :: 0 <= k < |segs| ==>
           segs[k].categoryId in catToClass &&
           r.value.instances[k] == GroundTruth(segs[k].id, catToClass[segs[k].categoryId], SegmentMask(ids, segs[k].id))
  {
    if imgId !in idx.imgIdToImg {
      return Failure(ImageNotIndexed(imgId));
    }
    var imgInfo := idx.imgIdToImg[imgId];
    if imgId !in idx.imgIdToAnn {
      return Failure(AnnotationNotIndexed(imgId));
    }
    var ann := idx.imgIdToAnn[imgId];
    var fileName := ann.fileName;
    if fileName !in masksDir {
      return Failure(MaskFileNotFound(fileName));
    }
    var segIdMap := RgbToId(masksDir[fileName]);
    var h, w := segIdMap.height, segIdMap.width;
    var segs := ann.segmentsInfo;
    var instances: seq<GroundTruth> := [];
    var n := 0;
    while n < |segs|
      invariant 0 <= n <= |segs| && |instances| == n
      invariant forall k :: 0 <= k < n ==>
        segs[k].categoryId in catToClass &&
        instances[k] == GroundTruth(segs[k].id, catToClass[segs[k].categoryId], SegmentMask(segIdMap, segs[k].id))
    {
      var segId := segs[n].id;
      var catId := segs[n].categoryId;
      if catId !in catToClass {
        return Failure(CategoryNotMapped(catId));
      }
      var classId := catToClass[catId];
      var mask := SegmentMask(segIdMap, segId);
      instances := instances + [GroundTruth(segId, classId, mask)];
      n := n + 1;
    }
    return Success(PanopticGroundTruth(instances, h, w));
  }
}
