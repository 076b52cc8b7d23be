/** get_instance_gt_for_image: one {"instance_id", "class_id", "mask"}
    record per annotation whose decoded mask has the image's shape. The
    decoded mask (coco.annToMask) arrives with each annotation; the image
    size (loadImgs) and the annotation list (getAnnIds/loadAnns) are
    parameters. */
module InstanceGt {
  import opened Common

  /** A COCO annotation together with the mask the external decoder made
      of its polygon or RLE. */
  datatype DecodedAnnotation = DecodedAnnotation(id: int, categoryId: int, mask: Grid<int>)

  /** mask.shape == (height, width). */
  predicate ShapeMatches(a: DecodedAnnotation, height: nat, width: nat)
  {
    a.mask.height == height && a.mask.width == width
  }

  /** The annotations the loop keeps, in their original order. */
  function Kept(anns: seq<DecodedAnnotation>, height: nat, width: nat): (kept: seq<DecodedAnnotation>)
    ensures |kept| <= |anns|
    ensures forall k :: 0 <= k < |kept| ==> ShapeMatches(kept[k], height, width) && kept[k] in anns
  {
    if anns == [] then []
    else
      var last := anns[|anns| - 1];
      var p := anns[..|anns| - 1];
      assert anns == p + [last];
      Kept(p, height, width) + (if ShapeMatches(last, height, width) then [last] else [])
  }

  /** How many annotations the shape check drops. */
  function Mismatches(anns: seq<DecodedAnnotation>, height: nat, width: nat): nat
  {
    if anns == [] then 0
    else (if ShapeMatches(anns[0], height, width) then 0 else 1) + Mismatches(anns[1..], height, width)
  }

  lemma {:induction false} KeptAppend(s: seq<DecodedAnnotation>, t: seq<DecodedAnnotation>, height: nat, width: nat)
    ensures Kept(s + t, height, width) == Kept(s, height, width) + Kept(t, height, width)
  {
    if t != [] {
      var p := t[..|t| - 1];
      assert t == p + [t[|t| - 1]];
      assert s + t == (s + p) + [t[|t| - 1]];
      assert (s + t)[..|s + t| - 1] == s + p;
      KeptAppend(s, p, height, width);
    } else {
      assert s + t == s;
    }
  }

  /** Output length = number of annotations - number of shape mismatches;
      so the output is never longer than the input. */
  lemma {:induction false} KeptLength(anns: seq<DecodedAnnotation>, height: nat, width: nat)
    ensures |Kept(anns, height, width)| + Mismatches(anns, height, width) == |anns|
  {
    if anns != [] {
      KeptLength(anns[1..], height, width);
      assert anns == [anns[0]] + anns[1..];
      KeptAppend([anns[0]], anns[1..], height, width);
      assert Kept([anns[0]], height, width) == Kept([], height, width) + (if ShapeMatches(anns[0], height, width) then [anns[0]] else []);
    }
  }

  /** idx[k] is the input position of the k-th kept annotation. */
  ghost predicate SelectedBy(kept: seq<DecodedAnnotation>, anns: seq<DecodedAnnotation>, idx: seq<int>)
  {
    && |idx| == |kept|
    && (forall k :: 0 <= k < |idx| ==> 0 <= idx[k] < |anns| && kept[k] == anns[idx[k]])
    && (forall k, l :: 0 <= k < l < |idx| ==> idx[k] < idx[l])
  }

  /** The kept list is exactly the subsequence of the annotations whose
      mask shape is (height, width): it picks them at increasing positions,
      and it picks a position exactly when the shape there matches. */
  lemma {:induction false} KeptIsShapeFilter(anns: seq<DecodedAnnotation>, height: nat, width: nat)
    returns (idx: seq<int>)
    ensures SelectedBy(Kept(anns, height, width), anns, idx)
    ensures forall i :: 0 <= i < |anns| ==> (i in idx <==> ShapeMatches(anns[i], height, width))
  {
    if anns == [] {
      idx := [];
    } else {
      var n := |anns| - 1;
      var p := anns[..n];
      assert anns == p + [anns[n]];
      var pidx := KeptIsShapeFilter(p, height, width);
      if ShapeMatches(anns[n], height, width) {
        idx := pidx + [n];
      } else {
        idx := pidx;
      }
      forall i | 0 <= i < |anns|
        ensures i in idx <==> ShapeMatches(anns[i], height, width)
      {
        if i < n {
          assert anns[i] == p[i];
          assert i in pidx <==> ShapeMatches(p[i], height, width);
          assert i != n;
        }
      }
    }
  }

  /** The record built for a kept annotation: the mask passes through
      unchanged. */
  function ToInstance(a: DecodedAnnotation, catToClass: map<int, int>): GroundTruth
    requires a.categoryId in catToClass
  {
    GroundTruth(a.id, catToClass[a.categoryId], a.mask)
  }

  /** Annotation k is the first whose category the mapping lacks. */
  predicate FirstUnmapped(anns: seq<DecodedAnnotation>, catToClass: map<int, int>, k: int)
  {
    0 <= k < |anns| && anns[k].categoryId !in catToClass &&
    forall j :: 0 <= j < k ==> anns[j].categoryId in catToClass
  }

  /** The category lookup comes before the shape check, so an unmapped
      category fails the call even on an annotation that would be dropped. */
  method GetInstanceGt(height: nat, width: nat, anns: seq<DecodedAnnotation>, catToClass: map<int, int>)
    returns (r: Result<seq<GroundTruth>, Error>)
    ensures r.Success? <==> forall k :: 0 <= k < |anns| ==> anns[k].categoryId in catToClass
    ensures r.Failure? ==> exists k :: FirstUnmapped(anns, catToClass, k) && r.error == CategoryNotMapped(anns[k].categoryId)
    ensures r.Success? ==> |r.value| == |Kept(anns, height, width)| <= |anns|
    ensures r.Success? ==> forall k :: 0 <= k < |r.value| ==>
      r.value[k].mask.height == height && r.value[k].mask.width == width
    ensures r.Success? ==> forall k :: 0 <= k < |r.value| ==>
      var a := Kept(anns, height, width)[k];
      a.categoryId in catToClass &&
      r.value[k] == GroundTruth(a.id, catToClass[a.categoryId], a.mask)
  {
    var instances: seq<GroundTruth> := [];
    var n := 0;
    while n < |anns|
      invariant 0 <= n <= |anns|
      invariant forall k :: 0 <= k < n ==> anns[k].categoryId in catToClass
      invariant |instances| == |Kept(anns[..n], height, width)|
      invariant forall k :: 0 <= k < |instances| ==>
        var a := Kept(anns[..n], height, width)[k];
        a.categoryId in catToClass && instances[k] == ToInstance(a, catToClass)
    {
      var ann := anns[n];
      if ann.categoryId !in catToClass {
        return Failure(CategoryNotMapped(ann.categoryId));
      }
      var classId := catToClass[ann.categoryId];
      assert anns[..n + 1] == anns[..n] + [ann];
      var mask := ann.mask;
      if mask.height != height || mask.width != width {
        n := n + 1;
        continue;
      }
      instances := instances + [GroundTruth(ann.id, classId, mask)];
      n := n + 1;
    }
    assert anns[..n] == anns;
    return Success(instances);
  }
}
