/**
 * The `blogs` table as the two pages see it through the database client: rows of
 * posts, `insert`, `update(...).eq('id', x)`, `delete().eq('id', x)`, and the two
 * `select` queries ordered by `created_at` descending.
 */
module Store {
  import opened Wrappers
  import opened Seqs

  /** Row identifiers, handed out by the table on insert. */
  type Id = nat

  /** One row of the `blogs` table (the `Blog` record of both pages). */
  datatype Post = Post(
    id: Id,
    title: string,
    description: string,
    content: string,
    imageUrl: Option<string>,
    published: bool,
    createdAt: int,
    updatedAt: int,
    authorId: string,
    author: string)

  /** The columns an insert supplies; `id` and the timestamps come from the table. */
  datatype NewRow = NewRow(
    title: string,
    description: string,
    content: string,
    imageUrl: Option<string>,
    authorId: string,
    author: string,
    published: bool)

  /** The column sets the dashboard writes with `update`. */
  datatype Patch =
    | Edit(title: string, description: string, content: string, imageUrl: Option<string>,
           author: string, published: bool, updatedAt: int)
    | SetPublished(published: bool, updatedAt: int)

  predicate IsPublished(p: Post)
  {
    p.published
  }

  predicate IsDraft(p: Post)
  {
    !p.published
  }

  /** No two rows share an id. */
  ghost predicate UniqueIds(rows: seq<Post>)
  {
    forall i, j :: 0 <= i < j < |rows| ==> rows[i].id != rows[j].id
  }

  /** The row an insert creates: both timestamps are the table's clock at insert time. */
  function Created(id: Id, row: NewRow, now: int): Post
  {
    Post(id, row.title, row.description, row.content, row.imageUrl, row.published,
         now, now, row.authorId, row.author)
  }

  /** A row after an update: the columns the patch names take its values, the others keep theirs. */
  function ApplyPatch(p: Post, patch: Patch): (r: Post)
    ensures r.id == p.id && r.authorId == p.authorId && r.createdAt == p.createdAt
    ensures r.published == patch.published && r.updatedAt == patch.updatedAt
    ensures patch.SetPublished? ==> r.(published := p.published, updatedAt := p.updatedAt) == p
    ensures patch.Edit? ==>
      r.title == patch.title && r.description == patch.description && r.content == patch.content &&
      r.imageUrl == patch.imageUrl && r.author == patch.author
  {
    match patch
    case Edit(title, description, content, imageUrl, author, published, updatedAt) =>
      p.(title := title, description := description, content := content, imageUrl := imageUrl,
         author := author, published := published, updatedAt := updatedAt)
    case SetPublished(published, updatedAt) =>
      p.(published := published, updatedAt := updatedAt)
  }

  /** `update(patch).eq('id', id)`: every row with that id is patched, every other row is left as it was. */
  function UpdateWhere(rows: seq<Post>, id: Id, patch: Patch): (r: seq<Post>)
    ensures |r| == |rows|
    ensures forall i :: 0 <= i < |rows| ==>
      r[i] == if rows[i].id == id then ApplyPatch(rows[i], patch) else rows[i]
    decreases |rows|
  {
    if rows == [] then []
    else [if rows[0].id == id then ApplyPatch(rows[0], patch) else rows[0]] + UpdateWhere(rows[1..], id, patch)
  }

  /** How many rows carry `id`. */
  function IdCount(rows: seq<Post>, id: Id): nat
  {
    if rows == [] then 0 else (if rows[0].id == id then 1 else 0) + IdCount(rows[1..], id)
  }

  /**
   * `delete().eq('id', id)`: the rows with that id go, the others stay in their order.
   * A subsequence without that id, exactly `IdCount` shorter, keeps every other row.
   */
  function DeleteWhere(rows: seq<Post>, id: Id): (r: seq<Post>)
    ensures IsSubsequence(r, rows)
    ensures forall p :: p in r <==> p in rows && p.id != id
    ensures |r| == |rows| - IdCount(rows, id)
    decreases |rows|
  {
    if rows == [] then []
    else if rows[0].id == id then DeleteWhere(rows[1..], id)
    else
      var rest := DeleteWhere(rows[1..], id);
      assert ([rows[0]] + rest)[1..] == rest;
      [rows[0]] + rest
  }

  /** A delete keeps every other row as often as the table held it, and none with that id. */
  lemma {:induction false} DeleteWhereCounts(rows: seq<Post>, id: Id)
    ensures forall p :: multiset(DeleteWhere(rows, id))[p] == if p.id != id then multiset(rows)[p] else 0
    decreases |rows|
  {
    if rows != [] {
      DeleteWhereCounts(rows[1..], id);
      assert rows == [rows[0]] + rows[1..];
      var rest := DeleteWhere(rows[1..], id);
      if rows[0].id != id {
        assert DeleteWhere(rows, id) == [rows[0]] + rest;
      }
    }
  }

  /** The row with id `id`, if there is one (the first, should there be several). */
  function Find(rows: seq<Post>, id: Id): (r: Option<Post>)
    ensures r.Some? ==> r.value in rows && r.value.id == id
    ensures r.None? <==> forall p :: p in rows ==> p.id != id
    decreases |rows|
  {
    if rows == [] then None
    else if rows[0].id == id then Some(rows[0])
    else Find(rows[1..], id)
  }

  /** With unique ids, a row is what looking up its own id finds. */
  lemma {:induction false} FindUnique(rows: seq<Post>, p: Post)
    requires UniqueIds(rows) && p in rows
    ensures Find(rows, p.id) == Some(p)
    decreases |rows|
  {
    if rows[0] != p {
      assert p in rows[1..];
      assert rows[0].id != p.id by {
        var j :| 1 <= j < |rows| && rows[j] == p;
      }
      FindUnique(rows[1..], p);
    }
  }

  /** An update changes what a lookup finds only for the id it targets, and there by the patch. */
  lemma {:induction false} FindAfterUpdate(rows: seq<Post>, id: Id, patch: Patch, key: Id)
    ensures Find(UpdateWhere(rows, id, patch), key) ==
      if key != id then Find(rows, key)
      else if Find(rows, id).None? then None
      else Some(ApplyPatch(Find(rows, id).value, patch))
    decreases |rows|
  {
    if rows != [] {
      FindAfterUpdate(rows[1..], id, patch, key);
      assert UpdateWhere(rows, id, patch)[1..] == UpdateWhere(rows[1..], id, patch);
    }
  }

  /**
   * An update whose id matches no row leaves the table as it was (and the database
   * still reports success).
   */
  lemma UpdateMissingIsNoop(rows: seq<Post>, id: Id, patch: Patch)
    requires Find(rows, id).None?
    ensures UpdateWhere(rows, id, patch) == rows
  {
  }

  /** After a delete, the deleted id finds nothing and every other id finds what it found before. */
  lemma {:induction false} FindAfterDelete(rows: seq<Post>, id: Id, key: Id)
    ensures Find(DeleteWhere(rows, id), key) == if key == id then None else Find(rows, key)
    decreases |rows|
  {
    if rows != [] {
      FindAfterDelete(rows[1..], id, key);
    }
  }

  /** With unique ids, once the first row carries `id`, no later row does. */
  lemma HeadIdNotInTail(rows: seq<Post>)
    requires rows != [] && UniqueIds(rows)
    ensures UniqueIds(rows[1..]) && Find(rows[1..], rows[0].id).None?
  {
    forall p | p in rows[1..] ensures p.id != rows[0].id {
      var j :| 0 <= j < |rows[1..]| && rows[1..][j] == p;
      assert rows[j + 1] == p;
    }
  }

  /** With unique ids, an id is carried by one row if it is found and by none otherwise. */
  lemma {:induction false} IdCountUnique(rows: seq<Post>, id: Id)
    requires UniqueIds(rows)
    ensures IdCount(rows, id) == if Find(rows, id).Some? then 1 else 0
    decreases |rows|
  {
    if rows != [] {
      HeadIdNotInTail(rows);
      IdCountUnique(rows[1..], id);
      if rows[0].id != id {
        assert Find(rows, id) == Find(rows[1..], id);
      }
    }
  }

  /** Deleting an id that no row carries leaves the table as it was. */
  lemma {:induction false} DeleteMissingIsNoop(rows: seq<Post>, id: Id)
    requires Find(rows, id).None?
    ensures DeleteWhere(rows, id) == rows
    decreases |rows|
  {
    if rows != [] {
      assert rows == [rows[0]] + rows[1..];
      DeleteMissingIsNoop(rows[1..], id);
    }
  }

  /** With unique ids, a delete whose id is present removes exactly one row; otherwise it removes none. */
  lemma DeleteRemovesOne(rows: seq<Post>, id: Id)
    requires UniqueIds(rows)
    ensures Find(rows, id).Some? ==> |DeleteWhere(rows, id)| == |rows| - 1
    ensures Find(rows, id).None? ==> DeleteWhere(rows, id) == rows
  {
    IdCountUnique(rows, id);
    if Find(rows, id).None? {
      DeleteMissingIsNoop(rows, id);
    }
  }

  /** Appending a row with a fresh id: that id now finds it, every other id finds what it found before. */
  lemma {:induction false} FindAfterAppend(rows: seq<Post>, p: Post, key: Id)
    requires forall q :: q in rows ==> q.id != p.id
    ensures Find(rows + [p], key) == if key == p.id then Some(p) else Find(rows, key)
    decreases |rows|
  {
    if rows == [] {
      assert rows + [p] == [p];
    } else {
      assert (rows + [p])[1..] == rows[1..] + [p];
      FindAfterAppend(rows[1..], p, key);
    }
  }

  /** Newest first: `created_at` never increases along the sequence. */
  ghost predicate NewestFirst(s: seq<Post>)
  {
    forall i, j :: 0 <= i < j < |s| ==> s[i].createdAt >= s[j].createdAt
  }

  /** A row no older than everything in a newest-first sequence can go in front of it. */
  lemma ConsNewestFirst(x: Post, rest: seq<Post>)
    requires NewestFirst(rest) && forall y :: y in rest ==> y.createdAt <= x.createdAt
    ensures NewestFirst([x] + rest)
  {
    var r := [x] + rest;
    forall i, j | 0 <= i < j < |r| ensures r[i].createdAt >= r[j].createdAt {
      assert r[j] == rest[j - 1] && r[j] in rest;
      if i > 0 {
        assert r[i] == rest[i - 1];
      }
    }
  }

  /** Puts `p` into a newest-first sequence, ahead of every row no newer than it. */
  function InsertByDate(p: Post, s: seq<Post>): (r: seq<Post>)
    requires NewestFirst(s)
    ensures NewestFirst(r)
    ensures multiset(r) == multiset(s) + multiset{p}
    ensures forall x :: x in r ==> x in s || x == p
    decreases |s|
  {
    if s == [] || p.createdAt >= s[0].createdAt then
      ConsNewestFirst(p, s);
      [p] + s
    else
      var rest := InsertByDate(p, s[1..]);
      assert s == [s[0]] + s[1..];
      forall x | x in rest ensures x.createdAt <= s[0].createdAt {
        if x in s[1..] {
          var j :| 0 <= j < |s[1..]| && s[1..][j] == x;
          assert s[j + 1] == x;
        }
      }
      ConsNewestFirst(s[0], rest);
      assert multiset([s[0]] + rest) == multiset{s[0]} + multiset(rest);
      [s[0]] + rest
  }

  /** `order('created_at', { ascending: false })`: the same rows, newest first (ties keep table order). */
  function OrderByCreatedDesc(s: seq<Post>): (r: seq<Post>)
    ensures NewestFirst(r)
    ensures multiset(r) == multiset(s)
    decreases |s|
  {
    if s == [] then []
    else
      assert s == [s[0]] + s[1..];
      InsertByDate(s[0], OrderByCreatedDesc(s[1..]))
  }

  /** `select('*').order('created_at', { ascending: false })`: the operator's full list. */
  function ListAll(rows: seq<Post>): (r: seq<Post>)
    ensures NewestFirst(r)
    ensures forall p :: p in r <==> p in rows
    ensures multiset(r) == multiset(rows)
    ensures |r| == |rows|
  {
    var r := OrderByCreatedDesc(rows);
    assert |r| == |multiset(r)| == |multiset(rows)| == |rows|;
    assert forall p :: p in r <==> p in rows by {
      forall p ensures p in r <==> p in rows {
        assert p in r <==> p in multiset(r);
        assert p in rows <==> p in multiset(rows);
      }
    }
    r
  }

  /**
   * `select('*').eq('published', true).order('created_at', { ascending: false })`:
   * the readers' list. It holds every published row, each as often as the table does,
   * and nothing unpublished, newest first.
   */
  function ListPublished(rows: seq<Post>): (r: seq<Post>)
    ensures NewestFirst(r)
    ensures forall p :: p in r <==> p in rows && p.published
    ensures forall p :: multiset(r)[p] == if p.published then multiset(rows)[p] else 0
  {
    OrderByCreatedDesc(Filter(rows, IsPublished))
  }

  /** Publishing a row makes it appear in the readers' list. */
  lemma PublishShows(rows: seq<Post>, id: Id, now: int)
    requires Find(rows, id).Some?
    ensures Find(ListPublished(UpdateWhere(rows, id, SetPublished(true, now))), id).Some?
  {
    FindAfterUpdate(rows, id, SetPublished(true, now), id);
  }

  /** Unpublishing a row makes every row with its id disappear from the readers' list. */
  lemma UnpublishHides(rows: seq<Post>, id: Id, now: int)
    ensures Find(ListPublished(UpdateWhere(rows, id, SetPublished(false, now))), id).None?
  {
    var after := UpdateWhere(rows, id, SetPublished(false, now));
    forall p | p in after && p.published ensures p.id != id {
      var i :| 0 <= i < |after| && after[i] == p;
      assert after[i] == if rows[i].id == id then ApplyPatch(rows[i], SetPublished(false, now)) else rows[i];
    }
    var listed := ListPublished(after);
    forall p | p in listed ensures p.id != id {
      assert p in after && p.published;
    }
  }

  /**
   * The `blogs` table. Its ids are unique and below `nextId`, the id the next insert
   * hands out, so an id is never reused.
   */
  class PostTable {
    var rows: seq<Post>
    var nextId: Id

    ghost predicate Valid()
      reads this
    {
      UniqueIds(rows) && forall i :: 0 <= i < |rows| ==> rows[i].id < nextId
    }

    constructor ()
      ensures Valid() && rows == [] && nextId == 0
    {
      rows := [];
      nextId := 0;
    }

    /** `insert([row])`; `ok` is whether the database accepted the write. */
    method Insert(row: NewRow, now: int, ok: bool) returns (success: bool, id: Id)
      requires Valid()
      modifies this
      ensures Valid()
      ensures success == ok
      ensures success ==> id == old(nextId) && Find(old(rows), id).None?
      ensures success ==> rows == old(rows) + [Created(id, row, now)] && nextId == old(nextId) + 1
      ensures !success ==> rows == old(rows) && nextId == old(nextId)
    {
      success := ok;
      id := nextId;
      if ok {
        rows := rows + [Created(id, row, now)];
        nextId := nextId + 1;
      }
    }

    /** `update(patch).eq('id', id)`: no matching row is not an error, it just changes nothing. */
    method Update(id: Id, patch: Patch, ok: bool) returns (success: bool)
      requires Valid()
      modifies this
      ensures Valid()
      ensures success == ok
      ensures rows == if success then UpdateWhere(old(rows), id, patch) else old(rows)
      ensures nextId == old(nextId)
    {
      success := ok;
      if ok {
        rows := UpdateWhere(rows, id, patch);
      }
    }

    /** `delete().eq('id', id)`: no matching row is not an error either. */
    method Delete(id: Id, ok: bool) returns (success: bool)
      requires Valid()
      modifies this
      ensures Valid()
      ensures success == ok
      ensures rows == if success then DeleteWhere(old(rows), id) else old(rows)
      ensures nextId == old(nextId)
    {
      success := ok;
      if ok {
        var before := rows;
        rows := DeleteWhere(rows, id);
        DeleteKeepsIds(before, id, nextId);
      }
    }

    function SelectAll(): seq<Post>
      reads this
    {
      ListAll(rows)
    }

    function SelectPublished(): seq<Post>
      reads this
    {
      ListPublished(rows)
    }
  }

  /** Putting a row in front of rows with other ids keeps ids unique and bounded. */
  lemma ConsKeepsIds(first: Post, rest: seq<Post>, bound: Id)
    requires UniqueIds(rest) && forall q :: q in rest ==> q.id != first.id
    requires first.id < bound && forall i :: 0 <= i < |rest| ==> rest[i].id < bound
    ensures UniqueIds([first] + rest) && forall i :: 0 <= i < |[first] + rest| ==> ([first] + rest)[i].id < bound
  {
    var r := [first] + rest;
    forall i, j | 0 <= i < j < |r| ensures r[i].id != r[j].id {
      assert r[j] == rest[j - 1] && r[j] in rest;
    }
  }

  /** A delete keeps ids unique and below the table's next id. */
  lemma {:induction false} DeleteKeepsIds(rows: seq<Post>, id: Id, bound: Id)
    requires UniqueIds(rows) && forall i :: 0 <= i < |rows| ==> rows[i].id < bound
    ensures var r := DeleteWhere(rows, id);
      UniqueIds(r) && forall i :: 0 <= i < |r| ==> r[i].id < bound
    decreases |rows|
  {
    if rows != [] {
      assert UniqueIds(rows[1..]);
      DeleteKeepsIds(rows[1..], id, bound);
      var rest := DeleteWhere(rows[1..], id);
      if rows[0].id != id {
        forall q | q in rest ensures q.id != rows[0].id {
          var j :| 0 <= j < |rows[1..]| && rows[1..][j] == q;
          assert rows[j + 1] == q;
        }
        ConsKeepsIds(rows[0], rest, bound);
      }
    }
  }
}
