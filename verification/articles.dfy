/**
 * The article store of the sample blog: the `Article` class, its companion
 * counter (a 32-bit `AtomicInteger` read with `getAndIncrement`), the
 * process-wide `articles` list seeded with one entry, and the list operations
 * the `/articles` routes perform on it (add, find the first match, update the
 * first match in place, `removeIf`).
 *
 * The store is modelled as a class whose fields are the counter and the list of
 * article objects; `Contents()` reads the list back as values, and every method
 * is proved against a pure function on those values.
 */
module Articles {
  import opened Wrappers

  const Int32Min: int := -0x8000_0000
  const Int32Max: int := 0x7fff_ffff

  /** The value range of a JVM `Int`. */
  type Int32 = x: int | -0x8000_0000 <= x <= 0x7fff_ffff

  /** `getAndIncrement` advances the counter with two's-complement wrap-around. */
  function Inc32(x: Int32): (y: Int32)
    ensures x < Int32Max ==> y == x + 1
    ensures x == Int32Max ==> y == Int32Min
  {
    if x == Int32Max then Int32Min else x + 1
  }

  /** Reduction of an unbounded integer into the `Int` range. */
  function Wrap32(x: int): (r: Int32)
    ensures (r - x) % 0x1_0000_0000 == 0
    ensures Int32Min <= x <= Int32Max ==> r == x
  {
    (x - Int32Min) % 0x1_0000_0000 + Int32Min
  }

  /** The ids handed out by `n` successive `newEntry` calls from counter value `c`. */
  function IdsFrom(c: Int32, n: nat): (ids: seq<Int32>)
    ensures |ids| == n
    decreases n
  {
    if n == 0 then [] else [c] + IdsFrom(Inc32(c), n - 1)
  }

  /** The `i`-th id handed out is the start value plus `i`, wrapped to 32 bits. */
  lemma {:induction false} IdsFromWrap(c: Int32, n: nat)
    ensures forall i | 0 <= i < n :: IdsFrom(c, n)[i] == Wrap32(c + i)
    decreases n
  {
    if n > 0 {
      IdsFromWrap(Inc32(c), n - 1);
      forall i | 0 <= i < n
        ensures IdsFrom(c, n)[i] == Wrap32(c + i)
      {
        if i > 0 {
          assert IdsFrom(c, n)[i] == IdsFrom(Inc32(c), n - 1)[i - 1];
          WrapShift(c, i);
        }
      }
    }
  }

  lemma WrapShift(c: Int32, i: int)
    requires i > 0
    ensures Wrap32(Inc32(c) + (i - 1)) == Wrap32(c + i)
  {
    if c == Int32Max {
      assert Inc32(c) + (i - 1) == c + i - 0x1_0000_0000;
    }
  }

  /** While the counter does not pass `Int.MAX_VALUE`, successive ids strictly increase. */
  lemma {:induction false} IdsIncreaseWithoutWrap(c: Int32, n: nat)
    requires c + n - 1 <= Int32Max
    ensures forall i, j | 0 <= i < j < n :: IdsFrom(c, n)[i] < IdsFrom(c, n)[j]
  {
    IdsFromWrap(c, n);
    forall i | 0 <= i < n
      ensures IdsFrom(c, n)[i] == c + i
    {
      assert 0 <= c + i - Int32Min < 0x1_0000_0000;
    }
  }

  /** Even across the wrap, any 2^32 successive ids are pairwise distinct. */
  lemma IdsDistinctWithinOneCycle(c: Int32, n: nat)
    requires n <= 0x1_0000_0000
    ensures forall i, j | 0 <= i < j < n :: IdsFrom(c, n)[i] != IdsFrom(c, n)[j]
  {
    IdsFromWrap(c, n);
    forall i, j | 0 <= i < j < n
      ensures IdsFrom(c, n)[i] != IdsFrom(c, n)[j]
    {
      WrapInjective(c + i, c + j);
    }
  }

  lemma WrapInjective(x: int, y: int)
    requires x < y < x + 0x1_0000_0000
    ensures Wrap32(x) != Wrap32(y)
  {
    var m := 0x1_0000_0000;
    var a, b := x - Int32Min, y - Int32Min;
    assert a == (a / m) * m + a % m;
    assert b == (b / m) * m + b % m;
  }

  /** The counter's `Int.MAX_VALUE` is followed by `Int.MIN_VALUE`: the id sequence repeats. */
  lemma IdsWrapAtMax()
    ensures IdsFrom(Int32Max, 2) == [Int32Max, Int32Min]
  {
    assert IdsFrom(Inc32(Int32Max), 1) == [Int32Min];
  }

  /** An article read back as a value. */
  datatype Entry = Entry(id: int, title: string, body: string)

  /** `Article`: the id is fixed at construction, title and body are reassignable. */
  class Article {
    const id: int
    var title: string
    var body: string

    constructor (id: int, title: string, body: string)
      ensures this.id == id && this.title == title && this.body == body
    {
      this.id := id;
      this.title := title;
      this.body := body;
    }
  }

  /** The value of each article object in `list`, in list order. */
  ghost function Snapshot(list: seq<Article>): (r: seq<Entry>)
    reads list
    ensures |r| == |list|
    ensures forall i | 0 <= i < |list| :: r[i] == Entry(list[i].id, list[i].title, list[i].body)
  {
    if list == [] then [] else Snapshot(list[..|list| - 1]) + [Entry(list[|list| - 1].id, list[|list| - 1].title, list[|list| - 1].body)]
  }

  ghost predicate Distinct(list: seq<Article>) {
    forall i, j | 0 <= i < j < |list| :: list[i] != list[j]
  }

  /** The position of the first entry with the given id, as `find { it.id == id }` sees it. */
  function FirstWithId(s: seq<Entry>, id: int): (r: Option<nat>)
    ensures r.None? <==> forall k | 0 <= k < |s| :: s[k].id != id
    ensures r.Some? ==> r.value < |s| && s[r.value].id == id && forall k | 0 <= k < r.value :: s[k].id != id
  {
    if s == [] then None
    else if s[0].id == id then Some(0)
    else match FirstWithId(s[1..], id)
      case None => None
      case Some(k) => Some(k + 1)
  }

  /** The update route: the first entry with the id gets the new title and body. */
  function UpdateFirst(s: seq<Entry>, id: int, title: string, body: string): (r: seq<Entry>)
    ensures |r| == |s|
    ensures forall k | 0 <= k < |s| :: r[k].id == s[k].id
  {
    if s == [] then []
    else if s[0].id == id then [Entry(id, title, body)] + s[1..]
    else [s[0]] + UpdateFirst(s[1..], id, title, body)
  }

  /** `UpdateFirst` rewrites exactly the entry `find` locates and nothing else. */
  lemma {:induction false} UpdateFirstAtFound(s: seq<Entry>, id: int, title: string, body: string)
    ensures FirstWithId(s, id).None? ==> UpdateFirst(s, id, title, body) == s
    ensures FirstWithId(s, id).Some? ==>
      UpdateFirst(s, id, title, body) == s[FirstWithId(s, id).value := Entry(id, title, body)]
  {
    if s != [] && s[0].id != id {
      UpdateFirstAtFound(s[1..], id, title, body);
      assert s == [s[0]] + s[1..];
    }
  }

  /** Updating twice with the same values is the same as updating once. */
  lemma UpdateFirstIdempotent(s: seq<Entry>, id: int, title: string, body: string)
    ensures UpdateFirst(UpdateFirst(s, id, title, body), id, title, body) == UpdateFirst(s, id, title, body)
  {
    UpdateFirstAtFound(s, id, title, body);
    var u := UpdateFirst(s, id, title, body);
    UpdateFirstAtFound(u, id, title, body);
    match FirstWithId(s, id)
    case None =>
    case Some(k) =>
      assert u[k] == Entry(id, title, body);
      assert FirstWithId(u, id) == Some(k);
  }

  /** How the `post("{id}")` route ends. */
  datatype EditOutcome =
    | Redirected        // `respondRedirect`
    | NoResponse        // `return@post`, or an `_action` that no branch matches
    | MissingParameter  // `getOrFail` threw

  /**
   * The update action, with the form's title and body (`None` when the form
   * lacks that field). A missing article returns at once. A missing title
   * throws before any write. A missing body throws after the title has been
   * written, so the article keeps its old body under the new title.
   */
  function UpdateAction(s: seq<Entry>, id: int, title: Option<string>, body: Option<string>): (r: (seq<Entry>, EditOutcome))
    ensures r.1 == Redirected <==> FirstWithId(s, id).Some? && title.Some? && body.Some?
    ensures FirstWithId(s, id).None? || title.None? ==> r.0 == s
    ensures |r.0| == |s| && forall k | 0 <= k < |s| :: r.0[k].id == s[k].id
  {
    match FirstWithId(s, id)
    case None => (s, NoResponse)
    case Some(k) =>
      if title.None? then (s, MissingParameter)
      else if body.None? then (UpdateFirst(s, id, title.value, s[k].body), MissingParameter)
      else (UpdateFirst(s, id, title.value, body.value), Redirected)
  }

  /**
   * With both fields present the action is `UpdateFirst`. On the found
   * article it writes the new title, and the new body only when the form
   * has one: with the body missing the article keeps its old body.
   */
  lemma UpdateActionEffect(s: seq<Entry>, id: int, title: string, body: Option<string>)
    ensures body.Some? ==> UpdateAction(s, id, Some(title), body).0 == UpdateFirst(s, id, title, body.value)
    ensures FirstWithId(s, id).Some? ==>
      var k := FirstWithId(s, id).value;
      UpdateAction(s, id, Some(title), body)
        == (s[k := Entry(id, title, if body.Some? then body.value else s[k].body)],
            if body.Some? then Redirected else MissingParameter)
  {
    match FirstWithId(s, id)
    case None =>
      if body.Some? {
        UpdateFirstAtFound(s, id, title, body.value);
      }
    case Some(k) =>
      UpdateFirstAtFound(s, id, title, if body.Some? then body.value else s[k].body);
  }

  /** `removeIf { it.id == id }`: every entry with the id is dropped, the rest kept in order. */
  function RemoveIf(s: seq<Entry>, id: int): (r: seq<Entry>)
    ensures |r| <= |s|
    ensures forall k | 0 <= k < |r| :: r[k].id != id
  {
    if s == [] then []
    else RemoveIf(s[..|s| - 1], id) + (if s[|s| - 1].id == id then [] else [s[|s| - 1]])
  }

  /** An entry survives `removeIf` exactly when it was present and has another id. */
  lemma {:induction false} RemoveIfMembers(s: seq<Entry>, id: int)
    ensures forall e :: e in RemoveIf(s, id) <==> e in s && e.id != id
  {
    if s != [] {
      var p := s[..|s| - 1];
      RemoveIfMembers(p, id);
      assert s == p + [s[|s| - 1]];
    }
  }

  /**
   * A distinct selection of the first i objects of a distinct list is one of
   * the first i + 1, with or without the object at position i.
   */
  lemma DistinctExtend(list: seq<Article>, i: int, kept: seq<Article>)
    requires Distinct(list) && 0 <= i < |list|
    requires Distinct(kept) && forall x | x in kept :: x in list[..i]
    ensures Distinct(kept + [list[i]])
    ensures forall x | x in kept + [list[i]] :: x in list[..i + 1]
  {
    assert list[i] !in list[..i];
    assert list[..i + 1] == list[..i] + [list[i]];
  }

  /** One step of the `removeIf` scan: the object at position i is kept exactly when its id differs. */
  lemma SurvivorStep(kept: seq<Article>, c: seq<Entry>, i: int, a: Article, id: int)
    requires 0 <= i < |c| && c[i] == Entry(a.id, a.title, a.body)
    requires Snapshot(kept) == RemoveIf(c[..i], id)
    ensures a.id != id ==> Snapshot(kept + [a]) == RemoveIf(c[..i + 1], id)
    ensures a.id == id ==> Snapshot(kept) == RemoveIf(c[..i + 1], id)
  {
    assert c[..i + 1][..i] == c[..i];
    assert (kept + [a])[..|kept|] == kept;
  }

  /** `removeIf` filters piecewise: order and multiplicity of survivors are kept. */
  lemma {:induction false} RemoveIfAppend(a: seq<Entry>, b: seq<Entry>, id: int)
    ensures RemoveIf(a + b, id) == RemoveIf(a, id) + RemoveIf(b, id)
    decreases |b|
  {
    if b == [] {
      assert a + b == a;
    } else {
      var b' := b[..|b| - 1];
      assert (a + b)[..|a + b| - 1] == a + b';
      assert (a + b)[|a + b| - 1] == b[|b| - 1];
      RemoveIfAppend(a, b', id);
    }
  }

  /** `removeIf` removes no more than it must: the kept entries are those with other ids, in order. */
  lemma {:induction false} RemoveIfKeepsOthers(s: seq<Entry>, id: int)
    requires forall k | 0 <= k < |s| :: s[k].id != id
    ensures RemoveIf(s, id) == s
  {
    if s != [] {
      RemoveIfKeepsOthers(s[..|s| - 1], id);
      assert s == s[..|s| - 1] + [s[|s| - 1]];
    }
  }

  /** Deleting twice is deleting once. */
  lemma RemoveIfIdempotent(s: seq<Entry>, id: int)
    ensures RemoveIf(RemoveIf(s, id), id) == RemoveIf(s, id)
  {
    var r := RemoveIf(s, id);
    RemoveIfMembers(s, id);
    assert forall k | 0 <= k < |r| :: r[k] in r;
    RemoveIfKeepsOthers(r, id);
  }

  /** The ids stored are pairwise distinct and all lie in `[0, counter)`. */
  ghost predicate IdsBelow(s: seq<Entry>, counter: int) {
    (forall k | 0 <= k < |s| :: 0 <= s[k].id < counter) &&
    (forall i, j | 0 <= i < j < |s| :: s[i].id != s[j].id)
  }

  /** A post before the counter wraps keeps stored ids distinct, so `find` then locates the new article. */
  lemma PostKeepsIdsDistinct(s: seq<Entry>, counter: Int32, title: string, body: string)
    requires IdsBelow(s, counter) && 0 <= counter < Int32Max
    ensures IdsBelow(s + [Entry(counter, title, body)], Inc32(counter))
    ensures FirstWithId(s + [Entry(counter, title, body)], counter) == Some(|s|)
  {
    var t := s + [Entry(counter, title, body)];
    assert forall k | 0 <= k < |s| :: t[k] == s[k];
    FindAppended(s, Entry(counter, title, body));
  }

  /** An entry appended with an id nobody else has is the one `find` returns. */
  lemma FindAppended(s: seq<Entry>, e: Entry)
    requires forall k | 0 <= k < |s| :: s[k].id != e.id
    ensures FirstWithId(s + [e], e.id) == Some(|s|)
  {
    assert (s + [e])[|s|] == e;
    assert forall k | 0 <= k < |s| :: (s + [e])[k] == s[k];
  }

  /** Update and delete keep the store's id discipline. */
  lemma EditsKeepIdsDistinct(s: seq<Entry>, counter: int, id: int, title: Option<string>, body: Option<string>)
    requires IdsBelow(s, counter)
    ensures IdsBelow(UpdateAction(s, id, title, body).0, counter)
    ensures IdsBelow(RemoveIf(s, id), counter)
  {
    RemoveIfKeepsIdsBelow(s, id);
  }

  /** `removeIf` keeps the id discipline: it only drops entries. */
  lemma {:induction false} RemoveIfKeepsIdsBelow(s: seq<Entry>, id: int)
    ensures forall counter | IdsBelow(s, counter) :: IdsBelow(RemoveIf(s, id), counter)
  {
    if s != [] {
      var p := s[..|s| - 1];
      RemoveIfKeepsIdsBelow(p, id);
      RemoveIfMembers(p, id);
      forall counter | IdsBelow(s, counter)
        ensures IdsBelow(RemoveIf(s, id), counter)
      {
        assert IdsBelow(p, counter);
        var last := s[|s| - 1];
        if last.id != id {
          var r := RemoveIf(p, id);
          forall k | 0 <= k < |r|
            ensures r[k].id != last.id
          {
            assert r[k] in p;
          }
        }
      }
    }
  }

  /** The companion counter and the process-wide `articles` list. */
  class ArticleStore {
    var idInteger: Int32
    var articles: seq<Article>

    ghost function Contents(): seq<Entry>
      reads this, articles
    {
      Snapshot(articles)
    }

    /** Distinct list slots hold distinct objects, so an update touches one entry only. */
    ghost predicate Valid()
      reads this
    {
      Distinct(articles)
    }

    /** The counter starts at zero; the list is seeded with one `newEntry`. */
    constructor ()
      ensures Valid()
      ensures Contents() == [Entry(0, "The drive to develop!", "...it's what keeps me going.")]
      ensures idInteger == 1
    {
      idInteger := 0;
      articles := [];
      new;
      var a := NewEntry("The drive to develop!", "...it's what keeps me going.");
      articles := [a];
    }

    /** `newEntry`: the id is the counter's value before the increment. */
    method NewEntry(title: string, body: string) returns (a: Article)
      modifies this`idInteger
      ensures fresh(a)
      ensures a.id == old(idInteger) && a.title == title && a.body == body
      ensures idInteger == Inc32(old(idInteger))
    {
      a := new Article(idInteger, title, body);
      idInteger := Inc32(idInteger);
    }

    /** The create route: a new entry is appended and its id returned for the redirect. */
    method Post(title: string, body: string) returns (id: int)
      requires Valid()
      modifies this
      ensures Valid()
      ensures id == old(idInteger) && idInteger == Inc32(old(idInteger))
      ensures Contents() == old(Contents()) + [Entry(id, title, body)]
    {
      var a := NewEntry(title, body);
      articles := articles + [a];
      id := a.id;
    }

    /** `articles.find { it.id == id }`, as the show, edit and update routes use it. */
    method Find(id: int) returns (a: Article?)
      requires Valid()
      ensures FirstWithId(Contents(), id).None? ==> a == null
      ensures FirstWithId(Contents(), id).Some? ==> a == articles[FirstWithId(Contents(), id).value]
    {
      var i := 0;
      while i < |articles|
        invariant 0 <= i <= |articles|
        invariant forall k | 0 <= k < i :: articles[k].id != id
      {
        if articles[i].id == id {
          assert Contents()[i].id == id;
          return articles[i];
        }
        i := i + 1;
      }
      return null;
    }

    /** The update action: find the article, then assign the title, then the body. */
    method Update(id: int, title: Option<string>, body: Option<string>) returns (outcome: EditOutcome)
      requires Valid()
      modifies articles
      ensures Valid() && articles == old(articles)
      ensures (Contents(), outcome) == UpdateAction(old(Contents()), id, title, body)
    {
      ghost var c := Contents();
      var a := Find(id);
      if a == null {
        return NoResponse;
      }
      if title.None? {
        return MissingParameter;
      }
      ghost var k := FirstWithId(c, id).value;
      UpdateActionEffect(c, id, title.value, body);
      outcome := Assign(a, k, title.value, body);
    }

    /** The two assignments of the update action; a missing body throws between them. */
    method Assign(a: Article, ghost k: nat, title: string, body: Option<string>) returns (outcome: EditOutcome)
      requires Valid() && k < |articles| && articles[k] == a
      modifies a
      ensures outcome == if body.Some? then Redirected else MissingParameter
      ensures Contents() == old(Contents())[k := Entry(a.id, title, if body.Some? then body.value else old(Contents())[k].body)]
    {
      SetTitle(a, k, title);
      if body.None? {
        return MissingParameter;
      }
      SetBody(a, k, body.value);
      outcome := Redirected;
    }

    /** `article.title = title` on the `k`-th listed article. */
    method SetTitle(a: Article, ghost k: nat, title: string)
      requires Valid() && k < |articles| && articles[k] == a
      modifies a
      ensures Contents() == old(Contents())[k := old(Contents())[k].(title := title)]
    {
      a.title := title;
      assert forall j | 0 <= j < |articles| && j != k :: articles[j] != a;
    }

    /** `article.body = body` on the `k`-th listed article. */
    method SetBody(a: Article, ghost k: nat, body: string)
      requires Valid() && k < |articles| && articles[k] == a
      modifies a
      ensures Contents() == old(Contents())[k := old(Contents())[k].(body := body)]
    {
      a.body := body;
      assert forall j | 0 <= j < |articles| && j != k :: articles[j] != a;
    }

    /** The articles `removeIf { it.id == id }` keeps, in their list order. */
    method Survivors(id: int) returns (kept: seq<Article>)
      requires Valid()
      ensures Distinct(kept)
      ensures Snapshot(kept) == RemoveIf(Contents(), id)
    {
      ghost var c := Contents();
      kept := [];
      for i := 0 to |articles|
        invariant Distinct(kept)
        invariant forall x | x in kept :: x in articles[..i]
        invariant Snapshot(kept) == RemoveIf(c[..i], id)
      {
        var a := articles[i];
        SurvivorStep(kept, c, i, a, id);
        DistinctExtend(articles, i, kept);
        if a.id != id {
          kept := kept + [a];
        }
      }
      assert c[..|articles|] == c;
    }

    /** The delete action: `removeIf` keeps, in order, the articles with another id. */
    method Delete(id: int)
      requires Valid()
      modifies this`articles
      ensures Valid()
      ensures Contents() == RemoveIf(old(Contents()), id)
    {
      articles := Survivors(id);
    }

    /**
     * The `post("{id}")` route with the form's `_action`, title and body
     * (`None` when missing): "update" runs the update action, "delete"
     * removes, any other value does nothing and sends no response.
     */
    method EditById(id: int, action: Option<string>, title: Option<string>, body: Option<string>) returns (outcome: EditOutcome)
      requires Valid()
      modifies this, articles
      ensures Valid() && idInteger == old(idInteger)
      ensures action.None? ==> Contents() == old(Contents()) && outcome == MissingParameter
      ensures action == Some("update") ==> (Contents(), outcome) == UpdateAction(old(Contents()), id, title, body)
      ensures action == Some("delete") ==> Contents() == RemoveIf(old(Contents()), id) && outcome == Redirected
      ensures action.Some? && action.value != "update" && action.value != "delete" ==>
        Contents() == old(Contents()) && outcome == NoResponse
    {
      if action.None? {
        outcome := MissingParameter;
      } else if action.value == "update" {
        outcome := Update(id, title, body);
      } else if action.value == "delete" {
        Delete(id);
        outcome := Redirected;
      } else {
        outcome := NoResponse;
      }
    }
  }
}
