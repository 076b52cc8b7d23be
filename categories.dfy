/** build_category_id_mapping, shared by the detection, instance and
    panoptic builders: sort the categories by id and number them 0..N-1 in
    that order. The category list is what the annotation container returns
    (getCatIds/loadCats, or the panoptic JSON's "categories"). */
module Categories {
  import opened Common

  datatype Category = Category(id: int, name: string)

  predicate SortedById(s: seq<Category>)
  {
    forall i, j :: 0 <= i < j < |s| ==> s[i].id <= s[j].id
  }

  predicate UniqueIds(s: seq<Category>)
  {
    forall i, j :: 0 <= i < j < |s| ==> s[i].id != s[j].id
  }

  /** The set of ids of a category list. */
  function IdSet(s: seq<Category>): set<int>
  {
    if s == [] then {} else {s[0].id} + IdSet(s[1..])
  }

  lemma {:induction false} IdInSet(s: seq<Category>, i: int)
    requires 0 <= i < |s|
    ensures s[i].id in IdSet(s)
  {
    if i > 0 {
      IdInSet(s[1..], i - 1);
    }
  }

  lemma {:induction false} IdWitness(s: seq<Category>, x: int) returns (i: int)
    requires x in IdSet(s)
    ensures 0 <= i < |s| && s[i].id == x
  {
    if s[0].id == x {
      i := 0;
    } else {
      var j := IdWitness(s[1..], x);
      i := j + 1;
    }
  }

  lemma {:induction false} IdSetConcat(s: seq<Category>, t: seq<Category>)
    ensures IdSet(s + t) == IdSet(s) + IdSet(t)
  {
    if s == [] {
      assert s + t == t;
    } else {
      assert (s + t)[1..] == s[1..] + t;
      IdSetConcat(s[1..], t);
    }
  }

  lemma {:induction false} NotInIdSet(s: seq<Category>, x: int)
    requires forall i :: 0 <= i < |s| ==> s[i].id != x
    ensures x !in IdSet(s)
  {
    if s != [] {
      NotInIdSet(s[1..], x);
    }
  }

  /** With unique ids the first id does not occur again. */
  lemma HeadFresh(s: seq<Category>)
    requires s != [] && UniqueIds(s)
    ensures s[0].id !in IdSet(s[1..])
  {
    NotInIdSet(s[1..], s[0].id);
  }

  /** Inserts c in front of the first category whose id is not smaller, so
      that c stays ahead of the equal ids that followed it (a stable sort). */
  function Insert(c: Category, s: seq<Category>): (r: seq<Category>)
    requires SortedById(s)
    ensures |r| == |s| + 1
    ensures r[0] == c || (s != [] && r[0] == s[0])
    ensures SortedById(r)
  {
    if s == [] then [c]
    else if c.id <= s[0].id then [c] + s
    else
      var t := Insert(c, s[1..]);
      assert s[0].id <= t[0].id;
      [s[0]] + t
  }

  /** Python's sorted(cats, key=lambda c: c["id"]). */
  function SortById(s: seq<Category>): (r: seq<Category>)
    ensures |r| == |s|
    ensures SortedById(r)
  {
    if s == [] then [] else Insert(s[0], SortById(s[1..]))
  }

  /** Insertion adds the id of the inserted category, and keeps the ids
      unique when that id is new. */
  lemma {:induction false} InsertIds(c: Category, s: seq<Category>)
    requires SortedById(s)
    ensures IdSet(Insert(c, s)) == IdSet(s) + {c.id}
    ensures UniqueIds(s) && c.id !in IdSet(s) ==> UniqueIds(Insert(c, s))
  {
    var r := Insert(c, s);
    if s == [] {
    } else if c.id <= s[0].id {
      assert r[1..] == s;
      if UniqueIds(s) && c.id !in IdSet(s) {
        forall j | 0 < j < |r| ensures r[0].id != r[j].id {
          IdInSet(s, j - 1);
        }
      }
    } else {
      var t := Insert(c, s[1..]);
      assert r[1..] == t;
      InsertIds(c, s[1..]);
      if UniqueIds(s) && c.id !in IdSet(s) {
        assert UniqueIds(s[1..]);
        assert c.id !in IdSet(s[1..]);
        HeadFresh(s);
        forall j | 0 < j < |r| ensures r[0].id != r[j].id {
          IdInSet(t, j - 1);
        }
      }
    }
  }

  /** Sorting keeps the set of ids, and keeps ids unique. */
  lemma {:induction false} SortIds(s: seq<Category>)
    ensures IdSet(SortById(s)) == IdSet(s)
    ensures UniqueIds(s) ==> UniqueIds(SortById(s))
  {
    if s != [] {
      SortIds(s[1..]);
      InsertIds(s[0], SortById(s[1..]));
      if UniqueIds(s) {
        assert UniqueIds(s[1..]);
        HeadFresh(s);
      }
    }
  }

  lemma {:induction false} InsertPermutes(c: Category, s: seq<Category>)
    requires SortedById(s)
    ensures multiset(Insert(c, s)) == multiset(s) + multiset{c}
  {
    if s != [] && c.id > s[0].id {
      InsertPermutes(c, s[1..]);
      assert s == [s[0]] + s[1..];
      assert Insert(c, s) == [s[0]] + Insert(c, s[1..]);
    }
  }

  /** The sorted list is a permutation of the category list. */
  lemma {:induction false} SortPermutes(s: seq<Category>)
    ensures multiset(SortById(s)) == multiset(s)
  {
    if s != [] {
      SortPermutes(s[1..]);
      InsertPermutes(s[0], SortById(s[1..]));
      assert s == [s[0]] + s[1..];
    }
  }

  /** The dict comprehension {c["id"]: idx for idx, c in enumerate(s)}:
      later entries overwrite earlier ones with the same id, so every id is
      bound to the position of its last occurrence. */
  function Enumerate(s: seq<Category>): (m: map<int, int>)
    ensures m.Keys == IdSet(s)
    ensures forall x :: x in m ==>
      0 <= m[x] < |s| && s[m[x]].id == x && forall j :: m[x] < j < |s| ==> s[j].id != x
  {
    if s == [] then map[]
    else
      var p := s[..|s| - 1];
      assert s == p + [s[|s| - 1]];
      IdSetConcat(p, [s[|s| - 1]]);
      Enumerate(p)[s[|s| - 1].id := |s| - 1]
  }

  /** build_category_id_mapping: category id -> dense class index. */
  function BuildMapping(cats: seq<Category>): (m: map<int, int>)
    ensures m.Keys == IdSet(cats)
    ensures forall x :: x in m ==> 0 <= m[x] < |cats|
  {
    SortIds(cats);
    Enumerate(SortById(cats))
  }

  /** The number of category ids strictly below a. */
  function Rank(ids: set<int>, a: int): nat
  {
    |set b | b in ids && b < a|
  }

  lemma {:induction false} IdSetSize(s: seq<Category>)
    requires UniqueIds(s)
    ensures |IdSet(s)| == |s|
  {
    if s != [] {
      assert UniqueIds(s[1..]);
      IdSetSize(s[1..]);
      HeadFresh(s);
    }
  }

  /** With unique ids the sorted list is strictly increasing and every
      category's class index is its position in it. */
  lemma SortedPosition(cats: seq<Category>, i: int)
    requires UniqueIds(cats)
    requires 0 <= i < |cats|
    ensures SortById(cats)[i].id in BuildMapping(cats)
    ensures BuildMapping(cats)[SortById(cats)[i].id] == i
  {
    var s := SortById(cats);
    SortIds(cats);
    IdInSet(s, i);
  }

  /** In a sorted list with unique ids, the ids below the one at position i
      are exactly the ids of the first i entries. */
  lemma IdsBelow(s: seq<Category>, i: int)
    requires SortedById(s) && UniqueIds(s)
    requires 0 <= i < |s|
    ensures (set b | b in IdSet(s) && b < s[i].id) == IdSet(s[..i])
  {
    var p := s[..i];
    forall b | b in IdSet(s) && b < s[i].id
      ensures b in IdSet(p)
    {
      var j := IdWitness(s, b);
      assert j < i;
      IdInSet(p, j);
    }
    forall b | b in IdSet(p)
      ensures b in IdSet(s) && b < s[i].id
    {
      var j := IdWitness(p, b);
      IdInSet(s, j);
    }
  }

  /** In a sorted list with unique ids, the rank of the id at position i
      is i. */
  lemma RankInSorted(s: seq<Category>, i: int)
    requires SortedById(s) && UniqueIds(s)
    requires 0 <= i < |s|
    ensures Rank(IdSet(s), s[i].id) == i
  {
    IdsBelow(s, i);
    assert UniqueIds(s[..i]);
    IdSetSize(s[..i]);
  }

  /** The class index of a category is the number of category ids smaller
      than its own, whatever order the categories were listed in. */
  lemma MappingIsRank(cats: seq<Category>, a: int)
    requires UniqueIds(cats)
    requires a in IdSet(cats)
    ensures BuildMapping(cats)[a] == Rank(IdSet(cats), a)
  {
    var s := SortById(cats);
    SortIds(cats);
    var i := BuildMapping(cats)[a];
    assert s[i].id == a;
    RankInSorted(s, i);
  }

  /** With unique category ids the mapping is a bijection from the category
      ids onto 0..N-1, N being the number of categories. */
  lemma MappingBijective(cats: seq<Category>)
    requires UniqueIds(cats)
    ensures |BuildMapping(cats).Keys| == |cats|
    ensures forall i :: 0 <= i < |cats| ==> i in BuildMapping(cats).Values
    ensures forall a, b :: a in BuildMapping(cats) && b in BuildMapping(cats) && a != b ==>
      BuildMapping(cats)[a] != BuildMapping(cats)[b]
  {
    var m := BuildMapping(cats);
    var s := SortById(cats);
    IdSetSize(cats);
    forall i | 0 <= i < |cats|
      ensures i in m.Values
    {
      SortedPosition(cats, i);
      SortIds(cats);
      IdInSet(s, i);
    }
    forall a, b | a in m && b in m && a != b
      ensures m[a] != m[b]
    {
      assert s[m[a]].id == a && s[m[b]].id == b;
    }
  }

  /** A smaller category id always gets a smaller class index. */
  lemma MappingOrderPreserving(cats: seq<Category>, a: int, b: int)
    requires a in IdSet(cats) && b in IdSet(cats) && a < b
    ensures BuildMapping(cats)[a] < BuildMapping(cats)[b]
  {
    var s := SortById(cats);
    var m := BuildMapping(cats);
    assert s[m[a]].id == a && s[m[b]].id == b;
  }

  /** The class index of one id agrees across two lists with the same ids. */
  lemma SameRank(cats1: seq<Category>, cats2: seq<Category>, a: int)
    requires UniqueIds(cats1) && UniqueIds(cats2)
    requires IdSet(cats1) == IdSet(cats2) && a in IdSet(cats1)
    ensures BuildMapping(cats1)[a] == BuildMapping(cats2)[a]
  {
    MappingIsRank(cats1, a);
    MappingIsRank(cats2, a);
  }

  /** Two category lists with unique ids and the same ids (in any order,
      with any names) give the same mapping. */
  lemma MappingOrderIndependent(cats1: seq<Category>, cats2: seq<Category>)
    requires UniqueIds(cats1) && UniqueIds(cats2)
    requires IdSet(cats1) == IdSet(cats2)
    ensures BuildMapping(cats1) == BuildMapping(cats2)
  {
    var m1, m2 := BuildMapping(cats1), BuildMapping(cats2);
    assert m1.Keys == m2.Keys;
    forall a | a in m1.Keys
      ensures m1[a] == m2[a]
    {
      SameRank(cats1, cats2, a);
    }
  }
}
