# COCO ground-truth normalisation, modelled in Dafny

Three Python scripts turn COCO 2017 annotations into one per-image list of
ground-truth records `{class_id, instance_id?, mask}`: a detection view
(rectangle masks from bounding boxes), an instance view (decoded polygon/RLE
masks, dropped when their shape disagrees with the image) and a panoptic view
(masks obtained by comparing a decoded segment-id map with each segment id).
This project models the logic they share and proves what it guarantees.

| file | module | models |
|---|---|---|
| `common.dfy` | `Common` | `Result`/`Option`, the `Error` kinds (KeyError, FileNotFoundError), `Grid<T>` (a numpy 2-D array with its shape), the output record `GroundTruth`, pixel counting |
| `categories.dfy` | `Categories` | `build_category_id_mapping`, identical in the three scripts: `sorted(cats, key=id)` as a stable insertion sort and the `{id: idx for idx, cat in enumerate(...)}` comprehension |
| `codec.dfy` | `PanopticCodec` | `rgb_to_id` (id = R + 256·G + 256²·B) on one pixel and on a whole image, with its inverse |
| `box_mask.dfy` | `BoxMask` | `bbox_to_mask`: clip the rounded corners, allocate a zeroed `array2`, fill the half-open slice |
| `detection.dfy` | `DetectionGt` | `get_detection_gt_for_image` |
| `instance.dfy` | `InstanceGt` | the loop of `get_instance_gt_for_image`: category lookup, shape check, `continue`, `append` |
| `panoptic.dfy` | `PanopticGt` | `index_panoptic_structures` and `get_panoptic_gt_for_image` from the index lookups on |

What comes from outside the scripts becomes a parameter: the category list
(what `getCatIds`/`loadCats` or the JSON's `"categories"` give), the image
size (`loadImgs`), the annotation list (`getAnnIds`/`loadAnns`), the mask
`annToMask` decodes for each annotation (carried by `DecodedAnnotation`), the
bounding box as its four rounded corners, and the panoptic mask directory as a
map from PNG file name to the decoded RGB grid. A missing key (`KeyError`) and
a missing PNG (`FileNotFoundError`) are `Failure` results carrying the key or
file name; for a category, the failure names the first unmapped one in list
order, which is where Python raises.

The class indices the assemblers emit lie in `[0, N-1]` whenever the mapping
passed in is `Categories.BuildMapping(cats)`, by that function's contract.

Two behaviours of the scripts shape the model:
- the panoptic `(H, W)` and every panoptic mask shape come from the decoded
  PNG, not from the image entry (whose lookup only serves to raise a
  `KeyError`, `panoptic/build_panoptic_gt.py:92`);
- duplicate keys are not rejected anywhere: in both index dictionaries and in
  the category mapping a later entry overwrites an earlier one (for the
  mapping, a duplicated id gets the index of its last sorted position, and the
  mapping is then not onto `[0, N-1]`), so bijection is proved under unique
  category ids; order preservation holds without it.

## Model

| member | source | states |
|---|---|---|
| `Categories.Insert` | panoptic/build_panoptic_gt.py:44 | inserting into an id-sorted list keeps it sorted and adds exactly one element; the new head is the inserted category or the old head |
| `Categories.InsertIds` | panoptic/build_panoptic_gt.py:44 | insertion adds exactly the inserted id to the id set, and keeps ids unique when that id is new |
| `Categories.SortById` | panoptic/build_panoptic_gt.py:44 | the sorted list is sorted by id and as long as the input |
| `Categories.SortIds` | segmentation/build_instance_gt.py:27 | the sorted list has the same id set as the input, and unique ids when the input does |
| `Categories.InsertPermutes` | detection/build_detection_gt.py:49 | insertion adds exactly the inserted category to the multiset of categories |
| `Categories.SortPermutes` | segmentation/build_instance_gt.py:27 | the sorted list is a permutation of the category list |
| `Categories.Enumerate` | panoptic/build_panoptic_gt.py:45 | the enumerate-comprehension's keys are exactly the ids, and each id maps to the position of its last occurrence |
| `Categories.BuildMapping` | panoptic/build_panoptic_gt.py:37-46 | the mapping's domain is exactly the set of category ids and every class index lies in `[0, N-1]` |
| `Categories.IdSetSize` | segmentation/build_instance_gt.py:25-26 | with unique ids, the number of distinct ids is the number of categories |
| `Categories.SortedPosition` | detection/build_detection_gt.py:49-51 | with unique ids, the id at sorted position i is a key of the mapping and gets class index i |
| `Categories.IdsBelow` | segmentation/build_instance_gt.py:27 | in the sorted list, the ids below the i-th id are exactly the ids of the first i categories |
| `Categories.RankInSorted` | segmentation/build_instance_gt.py:27-29 | in a sorted list with unique ids, exactly i ids are smaller than the i-th |
| `Categories.MappingIsRank` | panoptic/build_panoptic_gt.py:44-45 | with unique ids, a category's class index equals the number of category ids smaller than its own |
| `Categories.MappingBijective` | segmentation/build_instance_gt.py:25-30 | with unique ids, the mapping has N keys, is injective, and every index in `[0, N-1]` is attained: a bijection onto `[0, N-1]` |
| `Categories.MappingOrderPreserving` | detection/build_detection_gt.py:47-52 | for any two category ids a < b, mapping[a] < mapping[b] (even with duplicated ids, since each id keeps its last sorted position) |
| `Categories.SameRank` | segmentation/build_instance_gt.py:27-29 | two lists with unique ids and the same id set give one id the same class index |
| `Categories.MappingOrderIndependent` | segmentation/build_instance_gt.py:27-29 | two category lists with unique ids and the same id set, in any order, give the same mapping |
| `PanopticCodec.ColourRoundTrip` | panoptic/build_panoptic_gt.py:26-34 | for channels in `[0, 255]` the id lies in `[0, 256³-1]` and R = id mod 256, G = (id div 256) mod 256, B = id div 65536 |
| `PanopticCodec.IdRoundTrip` | panoptic/build_panoptic_gt.py:26-28 | every id in `[0, 256³-1]` is the code of a colour with 8-bit channels, the one the inverse gives |
| `PanopticCodec.PixelIdInjective` | panoptic/build_panoptic_gt.py:26-34 | on 8-bit channels two pixels get the same id exactly when their first three channels agree |
| `PanopticCodec.RgbToId` | panoptic/build_panoptic_gt.py:24-34 | the id map has the image's (H, W) and entry (i, j) is R + 256·G + 65536·B of pixel (i, j); channels past the third are ignored |
| `PanopticCodec.IdsToRgb` | panoptic/build_panoptic_gt.py:28 | the inverse direction: an RGB image of the id map's shape whose pixel (i, j) encodes id (i, j) |
| `PanopticCodec.DecodeEncodeImage` | panoptic/build_panoptic_gt.py:24-34 | decoding the encoding of an id map of 24-bit ids gives the id map back |
| `PanopticCodec.EncodeDecodeImage` | panoptic/build_panoptic_gt.py:24-34 | encoding the id map of an 8-bit, three-channel image gives the image back |
| `BoxMask.Clip` | detection/build_detection_gt.py:34-37 | a clipped bound lies in `[0, hi]`, is unchanged inside it, and becomes 0 below and hi above |
| `BoxMask.Clipped` | detection/build_detection_gt.py:33-37 | after clipping 0 ≤ x0, x1 ≤ width and 0 ≤ y0, y1 ≤ height |
| `BoxMask.BoxGridPixels` | detection/build_detection_gt.py:19-39 | the box mask is height × width, binary, and pixel (r, c) is 1 iff y0 ≤ r < y1 and x0 ≤ c < x1 for the clipped bounds |
| `BoxMask.CountRange` | detection/build_detection_gt.py:39 | for lo ≥ 0, the number of indices i in 0..n-1 with lo ≤ i < hi is max(0, min(n, hi) - lo); the model applies it only to clipped bounds, which are ≥ 0, where this is the length of the slice lo:hi |
| `BoxMask.SpanOnes` | detection/build_detection_gt.py:39 | a row set on the slice lo:hi has as many ones as the slice has indices |
| `BoxMask.StripeOnes` | detection/build_detection_gt.py:39 | rows of the slice lo:hi set to a row with K ones (and the others to zero rows) give K ones per row of the slice |
| `BoxMask.RectOnes` | detection/build_detection_gt.py:39 | a rectangle of corners inside the image has max(0, x1 - x0)·max(0, y1 - y0) set pixels |
| `BoxMask.BoxArea` | detection/build_detection_gt.py:28-39 | the number of set pixels is max(0, x1 - x0)·max(0, y1 - y0) over the clipped corners |
| `BoxMask.BoxInsideArea` | detection/build_detection_gt.py:28-39 | a box inside the image keeps its full area (x1 - x0)·(y1 - y0) |
| `BoxMask.BoxDegenerate` | detection/build_detection_gt.py:33-39 | a box outside the image or with x1 ≤ x0 or y1 ≤ y0 gives an all-zero mask, not an error |
| `BoxMask.ClippedLeftEdgeExample` | detection/build_detection_gt.py:24-39 | rounded corners (-5, 2)–(5, 5) on 8 × 8 give 15 pixels, exactly rows 2–4 and columns 0–4 |
| `BoxMask.BboxToMask` | detection/build_detection_gt.py:19-40 | the method returns a new height × width array equal, pixel for pixel, to the clipped-rectangle mask |
| `DetectionGt.GetDetectionGt` | detection/build_detection_gt.py:55-85 | success iff every category is mapped, else the KeyError of the first unmapped one; one record per annotation in order, class_id = mapping[category_id], mask = the box mask, each mask a distinct new array |
| `InstanceGt.Kept` | segmentation/build_instance_gt.py:65-76 | every kept annotation has mask shape (height, width) and comes from the input; the kept list is no longer than the input |
| `InstanceGt.KeptLength` | segmentation/build_instance_gt.py:73-76 | output length + number of shape mismatches = number of annotations |
| `InstanceGt.KeptIsShapeFilter` | segmentation/build_instance_gt.py:65-86 | the kept list is the input picked at increasing positions, and position i is picked exactly when its mask shape matches |
| `InstanceGt.GetInstanceGt` | segmentation/build_instance_gt.py:33-88 | success iff every category is mapped, including those of dropped annotations (the lookup precedes the shape check), else the first unmapped one; the records are the kept annotations in order with instance_id = ann id, class_id = mapping[category_id] and the decoded mask unchanged, each of shape (height, width) |
| `PanopticGt.IndexBy` | panoptic/build_panoptic_gt.py:55-56 | the dictionary's keys are exactly the entries' keys, each value carries its own key, and the last entry with a key wins |
| `PanopticGt.IndexPanoptic` | panoptic/build_panoptic_gt.py:49-57 | img_id_to_img has exactly the image ids as keys and each value's id equals its key; img_id_to_ann likewise on "image_id"; on duplicates the last entry wins |
| `PanopticGt.SegmentMask` | panoptic/build_panoptic_gt.py:117 | the mask has the id map's shape, is binary, and pixel (i, j) is 1 iff seg_id_map[i][j] == seg_id |
| `PanopticGt.SegmentMasksPartition` | panoptic/build_panoptic_gt.py:109-125 | with distinct segment ids, each pixel is set in exactly one segment mask if its id is a listed segment id and in none otherwise, so the masks are pairwise disjoint |
| `PanopticGt.GetPanopticGt` | panoptic/build_panoptic_gt.py:60-127 | an image id missing from either index, or a missing PNG, fails in source order; otherwise success iff every segment category is mapped, else the first unmapped one; one record per segment in order with instance_id = segment id, class_id = mapping[category_id], mask = the segment's equality mask, and (H, W) = the id map's shape |

## Left out

- The `main()` functions: path building, existence checks of the JSON file and the mask directory, printing, and the five-image demo slice.
- Loading JSON, opening the PNG with PIL and converting it with numpy: the container's lists and the decoded RGB grid are inputs; `os.path.join` of the mask directory and the file name is replaced by looking the file name up in the map that stands for the directory.
- The COCO API (`getCatIds`, `loadCats`, `loadImgs`, `getAnnIds`, `loadAnns`, `annToMask`): foreign library calls whose results are parameters; the polygon/RLE decoding itself is not modelled.
- Floating-point rounding in `bbox_to_mask` (`round(x)`, `round(x + w)`, Python's round-half-to-even): a box enters the model as its four already-rounded corners.
- numpy dtypes: masks are unbounded integers equal to 0 or 1 rather than `uint8`, and the `int64` cast before the colour arithmetic, which only prevents overflow, has no counterpart because Dafny integers do not overflow.
- `PanopticCodec.RgbToId`: requires at least three channels per pixel; with fewer, numpy raises an IndexError that the script does not handle, and that crash is not modelled.
- `PanopticGt.GetPanopticGt`: requires the one PNG it opens to have at least three channels per pixel, the same requirement as `PanopticCodec.RgbToId`; other files of the directory are unconstrained.
- `Categories.SortById`: stability of Python's `sorted` is implemented (equal ids keep their order) but not stated as a property, since no output of the scripts depends on it.
- `BoxMask.BboxToMask` and `DetectionGt.GetDetectionGt` return masks as `array2<int>` (allocated and filled in place, as in the source), while the instance and panoptic masks are values (`Grid<int>`); aliasing between a record's mask and the decoded mask the instance view passes through is therefore not modelled.
