/** The stored records of the bookshelf service and the collection
    operations the handlers are built from: `Array.prototype.filter`
    (Select), `Array.prototype.findIndex` (FindIndex) and the
    `{id, name, publisher}` projection of the listing (Project). */
module Bookshelf {
  import opened Text

  /** The 16-character token that `nanoid(16)` produces; opaque here. */
  type BookId = string

  /** The ISO-8601 string of `new Date().toISOString()`; opaque here. */
  type Timestamp = string

  datatype Book = Book(
    id: BookId,
    name: string,
    year: int,
    author: string,
    summary: string,
    publisher: string,
    pageCount: int,
    readPage: int,
    finished: bool,
    reading: bool,
    insertedAt: Timestamp,
    updatedAt: Timestamp)

  /** The projection a listing returns for each book. */
  datatype Summary = Summary(id: BookId, name: string, publisher: string)

  function Summarize(b: Book): Summary {
    Summary(b.id, b.name, b.publisher)
  }

  /** Projects every book, keeping the order of the store. */
  function Project(s: seq<Book>): (r: seq<Summary>)
    ensures |r| == |s|
    ensures forall i :: 0 <= i < |s| ==> r[i] == Summarize(s[i])
  {
    if |s| == 0 then [] else [Summarize(s[0])] + Project(s[1..])
  }

  /** The two boolean fields a listing can filter on. */
  datatype Flag = Reading | Finished

  /** The predicates the handlers pass to `books.filter`. */
  datatype Criterion =
    | IdIs(id: BookId)                  // book.id === id
    | NameContains(query: string)       // case-insensitive substring of the name
    | FlagIs(flag: Flag, value: bool)   // book.reading / book.finished === value

  predicate Matches(c: Criterion, b: Book) {
    match c
    case IdIs(id) => b.id == id
    case NameContains(q) => Includes(Lower(b.name), Lower(q))
    case FlagIs(Reading, v) => b.reading == v
    case FlagIs(Finished, v) => b.finished == v
  }

  /** `s.filter(b => Matches(c, b))`. */
  function Select(s: seq<Book>, c: Criterion): (r: seq<Book>)
    ensures |r| <= |s|
    ensures forall b :: b in r ==> b in s && Matches(c, b)
    ensures forall i :: 0 <= i < |s| && Matches(c, s[i]) ==> s[i] in r
  {
    if |s| == 0 then []
    else
      var rest := Select(s[1..], c);
      assert forall i :: 1 <= i < |s| ==> s[i] == s[1..][i - 1];
      if Matches(c, s[0]) then [s[0]] + rest else rest
  }

  /** `idx` is strictly increasing. */
  ghost predicate Increasing(idx: seq<nat>) {
    forall k, l :: 0 <= k < l < |idx| ==> idx[k] < idx[l]
  }

  /** `r` is the sequence `s[idx[0]], s[idx[1]], ...`. */
  ghost predicate PicksOut<T>(r: seq<T>, s: seq<T>, idx: seq<nat>) {
    && |idx| == |r|
    && forall k :: 0 <= k < |idx| ==> idx[k] < |s| && r[k] == s[idx[k]]
  }

  /** Select keeps exactly the matching positions of `s`, in their original
      order: it is the order-preserving subsequence of the matches. */
  lemma {:induction false} SelectKeepsOrder(s: seq<Book>, c: Criterion) returns (idx: seq<nat>)
    ensures Increasing(idx)
    ensures PicksOut(Select(s, c), s, idx)
    ensures forall i :: 0 <= i < |s| ==> (i in idx <==> Matches(c, s[i]))
  {
    if |s| == 0 {
      idx := [];
    } else {
      var tail := SelectKeepsOrder(s[1..], c);
      idx := Extend(tail, Matches(c, s[0]));
      ExtendPicksOut(s, c, tail);
      ExtendPositions(s, c, tail);
    }
  }

  /** The positions kept from `s` given the positions `tail` kept from
      `s[1..]` and whether `s[0]` is kept. */
  function Extend(tail: seq<nat>, keepHead: bool): (idx: seq<nat>)
    ensures Increasing(tail) ==> Increasing(idx)
    ensures forall i :: i in idx <==> (i == 0 && keepHead) || (i > 0 && i - 1 in tail)
  {
    var shifted := Shift(tail);
    forall i
      ensures i in shifted <==> i > 0 && i - 1 in tail
    {
      ShiftMembership(tail, i);
    }
    if keepHead then [0] + shifted else shifted
  }

  /** One step of SelectKeepsOrder: the extended positions pick out Select(s, c). */
  lemma ExtendPicksOut(s: seq<Book>, c: Criterion, tail: seq<nat>)
    requires |s| > 0
    requires PicksOut(Select(s[1..], c), s[1..], tail)
    ensures PicksOut(Select(s, c), s, Extend(tail, Matches(c, s[0])))
  {
    var rest := Select(s[1..], c);
    assert Select(s, c) == if Matches(c, s[0]) then [s[0]] + rest else rest;
    ConsPicksOut(s, rest, tail, Matches(c, s[0]));
  }

  /** Extending the positions of a subsequence of `s[1..]` (and keeping
      `s[0]` or not) gives the positions of the extended subsequence of `s`. */
  lemma ConsPicksOut<T>(s: seq<T>, rest: seq<T>, tail: seq<nat>, keepHead: bool)
    requires |s| > 0
    requires PicksOut(rest, s[1..], tail)
    ensures PicksOut(if keepHead then [s[0]] + rest else rest, s, Extend(tail, keepHead))
  {
    var r := if keepHead then [s[0]] + rest else rest;
    var idx := Extend(tail, keepHead);
    var off := if keepHead then 1 else 0;
    assert idx == if keepHead then [0] + Shift(tail) else Shift(tail);
    forall k | off <= k < |idx|
      ensures idx[k] < |s| && r[k] == s[idx[k]]
    {
      assert idx[k] == tail[k - off] + 1;
      assert r[k] == rest[k - off];
      assert s[1..][tail[k - off]] == s[tail[k - off] + 1];
    }
  }

  /** One step of SelectKeepsOrder: the extended positions are exactly the matches. */
  lemma ExtendPositions(s: seq<Book>, c: Criterion, tail: seq<nat>)
    requires |s| > 0
    requires forall i :: 0 <= i < |s| - 1 ==> (i in tail <==> Matches(c, s[1..][i]))
    ensures forall i :: 0 <= i < |s| ==> (i in Extend(tail, Matches(c, s[0])) <==> Matches(c, s[i]))
  {
  }

  /** Adds one to every index: positions in `s[1..]` become positions in `s`. */
  function Shift(idx: seq<nat>): (r: seq<nat>)
    ensures |r| == |idx|
    ensures forall k :: 0 <= k < |idx| ==> r[k] == idx[k] + 1
  {
    seq(|idx|, k requires 0 <= k < |idx| => idx[k] + 1)
  }

  lemma ShiftMembership(idx: seq<nat>, i: int)
    ensures i in Shift(idx) <==> i - 1 in idx
  {
  }

  /** A projected subsequence is a subsequence of the projection. */
  lemma ProjectPicksOut(r: seq<Book>, s: seq<Book>, idx: seq<nat>)
    requires PicksOut(r, s, idx)
    ensures PicksOut(Project(r), Project(s), idx)
  {
  }

  /** A filter that every book passes returns the whole store. */
  lemma {:induction false} SelectAll(s: seq<Book>, c: Criterion)
    requires forall i :: 0 <= i < |s| ==> Matches(c, s[i])
    ensures Select(s, c) == s
  {
    if |s| > 0 {
      var tail := s[1..];
      assert forall i :: 0 <= i < |tail| ==> Matches(c, tail[i]) by {
        forall i | 0 <= i < |tail|
          ensures Matches(c, tail[i])
        {
          assert tail[i] == s[i + 1];
        }
      }
      SelectAll(tail, c);
      assert Matches(c, s[0]);
      assert Select(s, c) == [s[0]] + Select(tail, c);
      assert [s[0]] + tail == s;
    }
  }

  /** Some book in `s` has this id. */
  predicate HasId(s: seq<Book>, id: BookId) {
    exists i :: 0 <= i < |s| && s[i].id == id
  }

  /** `s.findIndex(b => b.id === id)`: the first position holding `id`,
      or -1 when there is none. */
  function FindIndex(s: seq<Book>, id: BookId): (k: int)
    ensures -1 <= k < |s|
    ensures k == -1 <==> !HasId(s, id)
    ensures 0 <= k ==> s[k].id == id && forall j :: 0 <= j < k ==> s[j].id != id
  {
    if |s| == 0 then -1
    else if s[0].id == id then 0
    else
      var k := FindIndex(s[1..], id);
      assert forall j :: 1 <= j < |s| ==> s[j] == s[1..][j - 1];
      if k == -1 then -1 else k + 1
  }

  /** `s.filter(b => b.id === id)[0]` and `s.findIndex(b => b.id === id)`
      designate the same book. */
  lemma {:induction false} FirstMatchIsFindIndex(s: seq<Book>, id: BookId)
    ensures |Select(s, IdIs(id))| > 0 <==> HasId(s, id)
    ensures HasId(s, id) ==> Select(s, IdIs(id))[0] == s[FindIndex(s, id)]
  {
    if |s| > 0 && s[0].id != id {
      FirstMatchIsFindIndex(s[1..], id);
      assert HasId(s, id) ==> HasId(s[1..], id) by {
        if HasId(s, id) {
          var i :| 0 <= i < |s| && s[i].id == id;
          assert s[1..][i - 1] == s[i];
        }
      }
    }
  }

  /** No two stored books share an id. */
  predicate UniqueIds(s: seq<Book>) {
    forall i, j :: 0 <= i < j < |s| ==> s[i].id != s[j].id
  }

  /** Every stored book has `readPage <= pageCount`. */
  predicate PagesWithinCount(s: seq<Book>) {
    forall i :: 0 <= i < |s| ==> s[i].readPage <= s[i].pageCount
  }

  /** Every stored book's `finished` agrees with its page counts. */
  predicate FinishedAgrees(s: seq<Book>) {
    forall i :: 0 <= i < |s| ==> s[i].finished == (s[i].readPage == s[i].pageCount)
  }

  /** What every store reachable through the handlers satisfies, provided
      each create is given an id not already in use. */
  predicate StoreInvariant(s: seq<Book>) {
    UniqueIds(s) && PagesWithinCount(s)
  }
}
