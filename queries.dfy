/** The persistence queries the handlers issue, over the in-memory tables:
    filters, lookup by primary key, removal of a row and the category map. */
module Queries {
  import opened Types

  /** `query.filter(...).all()`: the rows that satisfy `keep`, in table
      order. */
  function Filter(t: seq<Question>, keep: Question -> bool): (r: seq<Question>)
    ensures |r| <= |t|
    ensures forall q :: q in r <==> q in t && keep(q)
  {
    if t == [] then []
    else (if keep(t[0]) then [t[0]] else []) + Filter(t[1..], keep)
  }

  /** A filter of a table is again a table. */
  lemma {:induction false} FilterKeepsIdOrder(t: QuestionTable, keep: Question -> bool)
    ensures QuestionIdsIncreasing(Filter(t, keep))
    decreases |t|
  {
    if t != [] {
      var rest: QuestionTable := t[1..];
      FilterKeepsIdOrder(rest, keep);
      var r := Filter(rest, keep);
      forall q | q in r
        ensures t[0].id < q.id
      {
        var k :| 0 <= k < |rest| && rest[k] == q;
        assert t[k + 1] == q;
      }
    }
  }

  /** The length of a filtered table is the number of rows that match. */
  lemma {:induction false} FilterCountsMatches(t: QuestionTable, keep: Question -> bool)
    ensures |Filter(t, keep)| == |set q | q in t && keep(q)|
    decreases |t|
  {
    if t != [] {
      var rest: QuestionTable := t[1..];
      FilterCountsMatches(rest, keep);
      var all := set q | q in t && keep(q);
      var tail := set q | q in rest && keep(q);
      assert Filter(t, keep) == (if keep(t[0]) then [t[0]] else []) + Filter(rest, keep);
      FirstRowNotInRest(t);
      if keep(t[0]) {
        SetSplit(t, keep);
        assert all == {t[0]} + tail;
        assert t[0] !in tail;
      } else {
        SetSplit(t, keep);
        assert all == tail;
      }
    }
  }

  lemma FirstRowNotInRest(t: QuestionTable)
    requires t != []
    ensures t[0] !in t[1..]
  {
    forall k | 0 <= k < |t| - 1
      ensures t[1..][k] != t[0]
    {
      assert t[1..][k] == t[k + 1];
    }
  }

  lemma SetSplit(t: seq<Question>, keep: Question -> bool)
    requires t != []
    ensures (set q | q in t && keep(q))
         == (if keep(t[0]) then {t[0]} else {}) + (set q | q in t[1..] && keep(q))
  {
    assert t == [t[0]] + t[1..];
  }

  /** `Question.query.filter(Question.id == id).one_or_none()`, as the
      position of that row. */
  function IndexOf(t: seq<Question>, id: int): (r: Option<nat>)
    ensures r.Some? ==> r.value < |t| && t[r.value].id == id
    ensures r.None? <==> id !in QuestionIds(t)
  {
    if t == [] then None
    else if t[0].id == id then Some(0)
    else match IndexOf(t[1..], id)
      case None => None
      case Some(k) => Some(k + 1)
  }

  /** The table without the row at position k. */
  function RemoveAt(t: seq<Question>, k: nat): seq<Question>
    requires k < |t|
  {
    t[..k] + t[k + 1..]
  }

  /** Removing the row that holds `t[k].id` keeps the table ordered, removes
      exactly that id and keeps every other row. */
  lemma RemoveAtProperties(t: QuestionTable, k: nat)
    requires k < |t|
    ensures var r := RemoveAt(t, k);
      && QuestionIdsIncreasing(r)
      && |r| == |t| - 1
      && QuestionIds(r) == QuestionIds(t) - {t[k].id}
      && forall q | q in t && q.id != t[k].id :: q in r
  {
    RemoveAtKeepsOrder(t, k);
    RemoveAtKeepsOthers(t, k);
    RemoveAtDropsId(t, k);
  }

  lemma RemoveAtKeepsOrder(t: QuestionTable, k: nat)
    requires k < |t|
    ensures QuestionIdsIncreasing(RemoveAt(t, k))
  {
    var r := RemoveAt(t, k);
    forall i, j | 0 <= i < j < |r|
      ensures r[i].id < r[j].id
    {
      var i' := if i < k then i else i + 1;
      var j' := if j < k then j else j + 1;
      assert r[i] == t[i'] && r[j] == t[j'];
    }
  }

  lemma RemoveAtKeepsOthers(t: QuestionTable, k: nat)
    requires k < |t|
    ensures forall q | q in t && q.id != t[k].id :: q in RemoveAt(t, k)
  {
    var r := RemoveAt(t, k);
    forall q | q in t && q.id != t[k].id
      ensures q in r
    {
      var m :| 0 <= m < |t| && t[m] == q;
      if m < k {
        assert r[m] == q;
      } else {
        assert r[m - 1] == q;
      }
    }
  }

  lemma RemoveAtDropsId(t: QuestionTable, k: nat)
    requires k < |t|
    ensures QuestionIds(RemoveAt(t, k)) == QuestionIds(t) - {t[k].id}
  {
    var r := RemoveAt(t, k);
    RemoveAtKeepsOthers(t, k);
    RemoveAtRowsFromTable(t, k);
    forall id | id in QuestionIds(r)
      ensures id in QuestionIds(t) - {t[k].id}
    {
      var q :| q in r && q.id == id;
    }
    forall id | id in QuestionIds(t) - {t[k].id}
      ensures id in QuestionIds(r)
    {
      var q :| q in t && q.id == id;
    }
  }

  lemma RemoveAtRowsFromTable(t: QuestionTable, k: nat)
    requires k < |t|
    ensures forall q | q in RemoveAt(t, k) :: q in t && q.id != t[k].id
  {
    var r := RemoveAt(t, k);
    forall q | q in r
      ensures q in t && q.id != t[k].id
    {
      var m :| 0 <= m < |r| && r[m] == q;
      if m < k {
        assert t[m] == q;
      } else {
        assert t[m + 1] == q;
      }
    }
  }

  /** `Category.query.filter_by(id=id).one_or_none()`. */
  function FindCategory(cats: seq<Category>, id: int): (r: Option<Category>)
    ensures r.Some? ==> r.value in cats && r.value.id == id
    ensures r.None? <==> id !in CategoryIds(cats)
  {
    if cats == [] then None
    else if cats[0].id == id then Some(cats[0])
    else FindCategory(cats[1..], id)
  }

  /** `{category.id: category.type for category in categories}`: entries
      are added in order, a later category with the same id replacing an
      earlier one. */
  function CategoryMap(cats: seq<Category>): (m: map<int, string>)
    ensures m.Keys == CategoryIds(cats)
    ensures forall id | id in m :: Category(id, m[id]) in cats
  {
    if cats == [] then map[]
    else
      var last := cats[|cats| - 1];
      var init := cats[..|cats| - 1];
      assert cats == init + [last];
      CategoryMap(init)[last.id := last.typeName]
  }

  /** With unique ids, the map gives each category its own type. */
  lemma CategoryMapOfTable(cats: CategoryTable, c: Category)
    requires c in cats
    ensures c.id in CategoryMap(cats) && CategoryMap(cats)[c.id] == c.typeName
  {
    var m := CategoryMap(cats);
    assert Category(c.id, m[c.id]) in cats;
    var i :| 0 <= i < |cats| && cats[i] == c;
    var j :| 0 <= j < |cats| && cats[j] == Category(c.id, m[c.id]);
    assert i == j;
  }
}
