/** The list transformations behind the news-item handlers of the application
    shell: prepend the echoed row, replace by id, filter out by id, and count
    the published items. Backend replies are values passed in. */
module NewsList {
  import opened Records

  /** Reply of the `select` that loads the table: rows (possibly null) or an error. */
  datatype LoadResult = LoadOk(data: Option<seq<NewsItem>>) | LoadError

  /** Reply of `insert(...).select()`: the echoed rows (possibly null) or an error. */
  datatype InsertResult = InsertOk(data: Option<seq<NewsItem>>) | InsertError

  /** Reply of an `update` or `delete` by id. */
  datatype WriteResult = WriteOk | WriteError

  /** The columns written by the update handler. */
  datatype UpdatePatch = UpdatePatch(
    summary: string,
    category: string,
    contentType: string,
    status: string,
    date: string,
    originalText: string)

  predicate HasId(items: seq<NewsItem>, id: string) {
    exists x :: x in items && x.id == id
  }

  /** No two positions hold the same id. The source does not enforce this. */
  predicate UniqueIds(items: seq<NewsItem>) {
    forall i, j :: 0 <= i < j < |items| ==> items[i].id != items[j].id
  }

  /** Number of positions holding `id`. */
  function CountId(items: seq<NewsItem>, id: string): (n: nat)
    ensures n <= |items|
    ensures n == 0 <==> !HasId(items, id)
  {
    if items == [] then 0
    else
      var rest := CountId(items[1..], id);
      assert forall x :: x in items <==> x == items[0] || x in items[1..];
      (if items[0].id == id then 1 else 0) + rest
  }

  /** The ids, in list order. */
  function Ids(items: seq<NewsItem>): (r: seq<string>)
    ensures |r| == |items|
    ensures forall i :: 0 <= i < |items| ==> r[i] == items[i].id
  {
    seq(|items|, i requires 0 <= i < |items| => items[i].id)
  }

  /** `newsItems.filter(i => i.status === 'Published').length`. */
  function PublishedCount(items: seq<NewsItem>): (n: nat)
    ensures n <= |items|
    ensures n == |items| <==> forall x :: x in items ==> x.status == Published
    ensures n == 0 <==> forall x :: x in items ==> x.status != Published
  {
    if items == [] then 0
    else
      var rest := PublishedCount(items[1..]);
      assert forall x :: x in items <==> x == items[0] || x in items[1..];
      (if items[0].status == Published then 1 else 0) + rest
  }

  lemma {:induction false} PublishedCountAppend(a: seq<NewsItem>, b: seq<NewsItem>)
    ensures PublishedCount(a + b) == PublishedCount(a) + PublishedCount(b)
  {
    if a != [] {
      assert (a + b)[0] == a[0] && (a + b)[1..] == a[1..] + b;
      PublishedCountAppend(a[1..], b);
    } else {
      assert a + b == b;
    }
  }

  /** What the add handler does to the list: prepend the first echoed row.
      An empty or missing echo, like an error, leaves the list as it was. */
  function AfterInsert(prev: seq<NewsItem>, result: InsertResult): (r: seq<NewsItem>)
    ensures InsertSucceeded(result) ==> |r| == |prev| + 1 && r[0] == result.data.value[0] && r[1..] == prev
    ensures !InsertSucceeded(result) ==> r == prev
  {
    if InsertSucceeded(result) then [result.data.value[0]] + prev else prev
  }

  predicate InsertSucceeded(result: InsertResult) {
    result.InsertOk? && result.data.Some? && |result.data.value| > 0
  }

  /** The add handler as written: `[data[0], ...prev]` whenever `data` is
      truthy. An empty array is truthy, and `data[0]` is then `undefined`,
      modelled as None. */
  function AfterInsertAsWritten(prev: seq<NewsItem>, result: InsertResult): (r: seq<Option<NewsItem>>)
    ensures |r| == |prev| + (if result.InsertOk? && result.data.Some? then 1 else 0)
  {
    if result.InsertOk? && result.data.Some? then
      var rows := result.data.value;
      [if |rows| > 0 then Some(rows[0]) else None] + Lift(prev)
    else Lift(prev)
  }

  function Lift(items: seq<NewsItem>): (r: seq<Option<NewsItem>>)
    ensures |r| == |items|
    ensures forall i :: 0 <= i < |items| ==> r[i] == Some(items[i])
  {
    seq(|items|, i requires 0 <= i < |items| => Some(items[i]))
  }

  /** The add handler's alert as written: raised on an error or a null
      `data`, that is, whenever `data` is not truthy. */
  predicate AlertAsWritten(result: InsertResult) {
    !(result.InsertOk? && result.data.Some?)
  }

  /** An insert that succeeds with an empty echo raises no alert as written
      and leaves an `undefined` entry at the head of the list. */
  lemma EmptyEchoLeavesUndefinedHead(prev: seq<NewsItem>)
    ensures !AlertAsWritten(InsertOk(Some([])))
    ensures var r := AfterInsertAsWritten(prev, InsertOk(Some([])));
            |r| == |prev| + 1 && r[0] == None && r[1..] == Lift(prev)
  {
  }

  /** The corrected handler agrees with the code as written on every reply
      except a successful empty echo, where it keeps the list unchanged. */
  lemma {:induction false} AfterInsertCorrectsOnlyEmptyEcho(prev: seq<NewsItem>, result: InsertResult)
    ensures result != InsertOk(Some([])) ==> Lift(AfterInsert(prev, result)) == AfterInsertAsWritten(prev, result)
  {
    if InsertSucceeded(result) {
      var row := result.data.value[0];
      var l, w := Lift([row] + prev), [Some(row)] + Lift(prev);
      assert |l| == |w|;
      forall i | 0 <= i < |l| ensures l[i] == w[i] {
        if i > 0 { assert ([row] + prev)[i] == prev[i - 1]; }
      }
      assert l == w;
    }
  }

  /** `prev.map(item => item.id === updated.id ? updated : item)`. */
  function ReplaceById(items: seq<NewsItem>, updated: NewsItem): (r: seq<NewsItem>)
    ensures |r| == |items|
    ensures forall i :: 0 <= i < |items| && items[i].id == updated.id ==> r[i] == updated
    ensures forall i :: 0 <= i < |items| && items[i].id != updated.id ==> r[i] == items[i]
  {
    if items == [] then []
    else [if items[0].id == updated.id then updated else items[0]] + ReplaceById(items[1..], updated)
  }

  /** `prev.filter(item => item.id !== id)`. */
  function RemoveById(items: seq<NewsItem>, id: string): (r: seq<NewsItem>)
    ensures |r| == |items| - CountId(items, id)
    ensures forall x :: x in r <==> x in items && x.id != id
  {
    if items == [] then []
    else
      var rest := RemoveById(items[1..], id);
      assert forall x :: x in items <==> x == items[0] || x in items[1..];
      if items[0].id == id then rest else [items[0]] + rest
  }

  /** Filtering keeps the relative order: it distributes over concatenation. */
  lemma {:induction false} RemoveByIdAppend(a: seq<NewsItem>, b: seq<NewsItem>, id: string)
    ensures RemoveById(a + b, id) == RemoveById(a, id) + RemoveById(b, id)
  {
    if a != [] {
      assert (a + b)[0] == a[0] && (a + b)[1..] == a[1..] + b;
      RemoveByIdAppend(a[1..], b, id);
      var x, y := RemoveById(a[1..], id), RemoveById(b, id);
      assert RemoveById(a + b, id) == (if a[0].id == id then [] else [a[0]]) + (x + y);
      assert RemoveById(a, id) == (if a[0].id == id then [] else [a[0]]) + x;
    } else {
      assert a + b == b;
    }
  }

  /** Deleting an id nobody holds changes nothing. */
  lemma {:induction false} RemoveByIdAbsent(items: seq<NewsItem>, id: string)
    requires !HasId(items, id)
    ensures RemoveById(items, id) == items
  {
    if items != [] {
      assert items[0] in items;
      assert forall x :: x in items[1..] ==> x in items;
      RemoveByIdAbsent(items[1..], id);
    }
  }

  lemma UniqueIdsCons(items: seq<NewsItem>)
    requires items != []
    ensures UniqueIds(items) <==>
              (forall x :: x in items[1..] ==> x.id != items[0].id) && UniqueIds(items[1..])
  {
    if (forall x :: x in items[1..] ==> x.id != items[0].id) && UniqueIds(items[1..]) {
      forall i, j | 0 <= i < j < |items| ensures items[i].id != items[j].id {
        if i == 0 {
          assert items[j] == items[1..][j - 1];
        } else {
          assert items[i] == items[1..][i - 1] && items[j] == items[1..][j - 1];
        }
      }
    }
  }

  /** Deleting keeps ids unique. */
  lemma {:induction false} RemoveByIdKeepsUnique(items: seq<NewsItem>, id: string)
    requires UniqueIds(items)
    ensures UniqueIds(RemoveById(items, id))
  {
    if items != [] {
      UniqueIdsCons(items);
      RemoveByIdKeepsUnique(items[1..], id);
      var rest := RemoveById(items[1..], id);
      if items[0].id != id {
        UniqueIdsCons([items[0]] + rest);
        assert ([items[0]] + rest)[1..] == rest;
      }
    }
  }

  /** With unique ids an id occurs at most once. */
  lemma {:induction false} CountIdUnique(items: seq<NewsItem>, id: string)
    requires UniqueIds(items)
    ensures CountId(items, id) <= 1
  {
    if items != [] {
      UniqueIdsCons(items);
      CountIdUnique(items[1..], id);
    }
  }

  /** With unique ids, deleting an id that is present removes exactly one item. */
  lemma DeletePresentUniqueDropsOne(items: seq<NewsItem>, id: string)
    requires UniqueIds(items) && HasId(items, id)
    ensures |RemoveById(items, id)| == |items| - 1
  {
    CountIdUnique(items, id);
  }

  /** Replacing by id keeps every id where it was. */
  lemma ReplaceByIdKeepsIds(items: seq<NewsItem>, updated: NewsItem)
    ensures Ids(ReplaceById(items, updated)) == Ids(items)
    ensures UniqueIds(items) ==> UniqueIds(ReplaceById(items, updated))
  {
    var r := ReplaceById(items, updated);
    assert forall i :: 0 <= i < |items| ==> r[i].id == items[i].id;
  }

  /** Replaying the same update changes nothing more. */
  lemma ReplaceByIdIdempotent(items: seq<NewsItem>, updated: NewsItem)
    ensures ReplaceById(ReplaceById(items, updated), updated) == ReplaceById(items, updated)
  {
  }

  /** Updating an id nobody holds changes nothing. */
  lemma ReplaceByIdAbsent(items: seq<NewsItem>, updated: NewsItem)
    requires !HasId(items, updated.id)
    ensures ReplaceById(items, updated) == items
  {
    var r := ReplaceById(items, updated);
    assert forall i :: 0 <= i < |items| ==> r[i] == items[i];
  }

  /** Deleting after an update of the same id is the same as deleting. */
  lemma {:induction false} RemoveAfterReplace(items: seq<NewsItem>, updated: NewsItem)
    ensures RemoveById(ReplaceById(items, updated), updated.id) == RemoveById(items, updated.id)
  {
    if items != [] {
      var r := ReplaceById(items, updated);
      assert r[1..] == ReplaceById(items[1..], updated);
      RemoveAfterReplace(items[1..], updated);
    }
  }

  /** The columns the update handler sends: id, timestamp and isHighlight are not among them. */
  function PatchOf(item: NewsItem): UpdatePatch {
    UpdatePatch(item.summary, item.category, item.contentType, item.status, item.date, item.originalText)
  }

  /** A stored row after `update(patch).eq('id', row.id)`. */
  function ApplyPatch(row: NewsItem, p: UpdatePatch): NewsItem {
    row.(summary := p.summary, category := p.category, contentType := p.contentType,
         status := p.status, date := p.date, originalText := p.originalText)
  }

  /** The stored row keeps its id, timestamp and highlight flag; the other six
      columns take the submitted values. The stored row then equals the local
      copy exactly when the submitted item agrees with it on the unsent fields. */
  lemma PatchTouchesOnlySentColumns(row: NewsItem, updated: NewsItem)
    ensures var s := ApplyPatch(row, PatchOf(updated));
            s.id == row.id && s.timestamp == row.timestamp && s.isHighlight == row.isHighlight
            && PatchOf(s) == PatchOf(updated)
    ensures ApplyPatch(row, PatchOf(updated)) == updated <==>
              updated.id == row.id && updated.timestamp == row.timestamp && updated.isHighlight == row.isHighlight
  {
  }
}
