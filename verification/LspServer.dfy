/** The linked list and the buffers of stdlib/runtime.c behind the language server's state. */
module LspServer {
  import opened Kod
  import opened Finite
  import opened LspState

  /** A `malloc`ed buffer: the block it is, and the bytes in it. */
  datatype Buffer = Buffer(id: nat, data: bytes)

  /** A place that holds a pointer to a node: `g_lsp_docs` or a node's `next`. */
  class Link {
    var to: LspDoc?

    constructor (to: LspDoc?)
      ensures this.to == to
    {
      this.to := to;
    }
  }

  class LspDoc {
    const node: nat
    const next: Link
    var uri: Buffer
    var text: Buffer

    constructor (e: Entry, next: Link)
      ensures node == e.node && uri == e.uri && text == e.text && this.next == next
    {
      node, uri, text, this.next := e.node, e.uri, e.text, next;
    }
  }

  // ----- The list as a value -----

  datatype Entry = Entry(node: nat, uri: Buffer, text: Buffer)

  ghost predicate UrisDiffer(es: seq<Entry>)
  {
    forall i, j :: 0 <= i < j < |es| ==> es[i].uri.data != es[j].uri.data
  }

  function Table(es: seq<Entry>): map<bytes, bytes>
  {
    if es == [] then map[] else Table(es[1..])[es[0].uri.data := es[0].text.data]
  }

  /** Every block the list owns: the nodes, their URIs and their texts. */
  function Owned(es: seq<Entry>): multiset<nat>
  {
    if es == [] then multiset{} else OwnedBy(es[0]) + Owned(es[1..])
  }

  function OwnedBy(e: Entry): multiset<nat>
  {
    multiset{e.node, e.uri.id, e.text.id}
  }

  function Held(b: Option<Buffer>): multiset<nat>
  {
    if b.None? then multiset{} else multiset{b.value.id}
  }

  function Data(b: Option<Buffer>): bytes
  {
    if b.None? then [] else b.value.data
  }

  lemma StillApart<T>(chain: seq<T>, k: nat)
    requires Distinct(chain) && k < |chain|
    ensures Distinct(Without(chain, k))
  {
  }

  function Front<T>(x: T, s: seq<T>): seq<T>
  {
    [x] + s
  }

  lemma FrontAt<T>(x: T, s: seq<T>)
    ensures |Front(x, s)| == |s| + 1 && Front(x, s)[0] == x
    ensures forall i :: 0 < i <= |s| ==> Front(x, s)[i] == s[i - 1]
  {
  }

  function Second<T>(x: T, s: seq<T>): seq<T>
    requires s != []
  {
    [s[0], x] + s[1..]
  }

  lemma SecondAt<T>(x: T, s: seq<T>)
    requires s != []
    ensures |Second(x, s)| == |s| + 1 && Second(x, s)[0] == s[0] && Second(x, s)[1] == x
    ensures forall i :: 1 < i <= |s| ==> Second(x, s)[i] == s[i - 1]
  {
  }

  ghost predicate AllIn(chain: seq<LspDoc>, links: seq<Link>, nodes: set<LspDoc>, places: set<Link>)
  {
    (forall i :: 0 <= i < |chain| ==> chain[i] in nodes) && (forall i :: 0 <= i < |links| ==> links[i] in places)
  }

  lemma MoreIn(chain: seq<LspDoc>, links: seq<Link>, nodes: set<LspDoc>, places: set<Link>, d: LspDoc, next: Link)
    requires AllIn(chain, links, nodes, places) && links != []
    ensures AllIn(Front(d, chain), Second(next, links), nodes + {d}, places + {next})
  {
    FrontAt(d, chain);
    SecondAt(next, links);
  }

  lemma FewerIn(chain: seq<LspDoc>, links: seq<Link>, nodes: set<LspDoc>, places: set<Link>, k: nat)
    requires AllIn(chain, links, nodes, places) && k < |chain| && k + 1 < |links|
    ensures AllIn(Without(chain, k), Without(links, k + 1), nodes, places)
  {
  }

  lemma NotYetIn(chain: seq<LspDoc>, links: seq<Link>, nodes: set<LspDoc>, places: set<Link>, next: Link)
    requires AllIn(chain, links, nodes, places) && next !in places
    ensures next !in links
  {
  }

  lemma OneMore<T>(links: seq<T>, next: T)
    requires links != [] && Distinct(links) && next !in links
    ensures Distinct(Second(next, links))
  {
  }

  lemma NewUri(es: seq<Entry>, e: Entry)
    requires UrisDiffer(es) && forall i :: 0 <= i < |es| ==> es[i].uri.data != e.uri.data
    ensures UrisDiffer(Front(e, es))
  {
  }

  lemma FirstEntry(e: Entry, es: seq<Entry>)
    ensures Owned(Front(e, es)) == OwnedBy(e) + Owned(es)
    ensures Table(Front(e, es)) == Table(es)[e.uri.data := e.text.data]
  {
    assert Front(e, es)[1..] == es;
  }

  lemma OnlyAt<T>(chain: seq<T>, k: nat)
    requires Distinct(chain) && k < |chain|
    ensures forall i :: 0 <= i < |chain| && i != k ==> chain[i] != chain[k]
  {
  }

  lemma StillDiffer(es: seq<Entry>, k: nat)
    requires UrisDiffer(es) && k < |es|
    ensures UrisDiffer(Without(es, k))
  {
  }

  lemma {:induction false} TableKeys(es: seq<Entry>, uri: bytes)
    ensures uri in Table(es) <==> exists i :: 0 <= i < |es| && es[i].uri.data == uri
    decreases |es|
  {
    if es != [] {
      TableKeys(es[1..], uri);
      if uri in Table(es[1..]) {
        var i :| 0 <= i < |es[1..]| && es[1..][i].uri.data == uri;
        assert es[i + 1].uri.data == uri;
      }
      if i :| 0 <= i < |es| && es[i].uri.data == uri && i > 0 {
        assert es[1..][i - 1].uri.data == uri;
      }
    }
  }

  lemma {:induction false} TableAt(es: seq<Entry>, k: nat)
    requires UrisDiffer(es) && k < |es|
    ensures es[k].uri.data in Table(es) && Table(es)[es[k].uri.data] == es[k].text.data
    decreases |es|
  {
    if k > 0 {
      TableAt(es[1..], k - 1);
    }
  }

  /** Replacing one entry's text changes that URI's text only. */
  lemma {:induction false} TableReplaced(es: seq<Entry>, k: nat, text: Buffer)
    requires UrisDiffer(es) && k < |es|
    ensures Table(es[k := es[k].(text := text)]) == Table(es)[es[k].uri.data := text.data]
    decreases |es|
  {
    var now := es[k := es[k].(text := text)];
    if k == 0 {
      assert now[1..] == es[1..];
    } else {
      TableReplaced(es[1..], k - 1, text);
      assert now[1..] == es[1..][k - 1 := es[k].(text := text)];
      assert es[0].uri.data != es[k].uri.data;
    }
  }

  /** Taking one entry out takes that URI out. */
  lemma {:induction false} TableRemoved(es: seq<Entry>, k: nat)
    requires UrisDiffer(es) && k < |es|
    ensures Table(Without(es, k)) == Table(es) - {es[k].uri.data}
    decreases |es|
  {
    var now := Without(es, k);
    var uri := es[k].uri.data;
    if k == 0 {
      assert now == es[1..];
      TableKeys(es[1..], uri);
    } else {
      TableRemoved(es[1..], k - 1);
      assert now[1..] == Without(es[1..], k - 1);
      assert es[0].uri.data != uri;
    }
  }

  lemma {:induction false} OwnedSplit(es: seq<Entry>, k: nat)
    requires k < |es|
    ensures Owned(es) == Owned(Without(es, k)) + OwnedBy(es[k])
    decreases |es|
  {
    hide OwnedBy;
    var now := Without(es, k);
    if k == 0 {
      assert now == es[1..];
    } else {
      OwnedSplit(es[1..], k - 1);
      assert now[0] == es[0] && now[1..] == Without(es[1..], k - 1);
      assert Owned(now) == OwnedBy(es[0]) + Owned(now[1..]);
    }
  }

  lemma OtherText(others: multiset<nat>, e: Entry, text: Buffer)
    ensures e.text.id in others + OwnedBy(e)
    ensures others + OwnedBy(e.(text := text)) == others + OwnedBy(e) - multiset{e.text.id} + multiset{text.id}
  {
  }

  lemma OwnedReplaced(es: seq<Entry>, k: nat, text: Buffer)
    requires k < |es|
    ensures es[k].text.id in Owned(es)
    ensures Owned(es[k := es[k].(text := text)]) == Owned(es) - multiset{es[k].text.id} + multiset{text.id}
  {
    hide Owned;
    var now := es[k := es[k].(text := text)];
    OwnedSplit(es, k);
    OwnedSplit(now, k);
    assert Without(now, k) == Without(es, k);
    OtherText(Owned(Without(es, k)), es[k], text);
  }

  // ----- malloc and free -----

  lemma SomeIdIsFree(live: multiset<nat>) returns (id: nat)
    ensures id !in live
  {
    var used: set<int> := set i: int | i in live;
    var below := Below(|used| + 1);
    if below <= used {
      SubsetSize(below, used);
      assert false;
    }
    id :| id in below && id !in used;
  }

  class Heap {
    /** The blocks allocated and not freed. */
    var live: multiset<nat>

    ghost predicate Valid()
      reads this
    {
      forall id :: live[id] <= 1
    }

    constructor ()
      ensures Valid() && live == multiset{}
    {
      live := multiset{};
    }

    /** Any block that is not in use. */
    method Malloc() returns (id: nat)
      requires Valid()
      modifies this
      ensures Valid() && id !in old(live) && live == old(live) + multiset{id}
    {
      ghost var free := SomeIdIsFree(live);
      assert free !in live;
      id :| id !in live;
      live := live + multiset{id};
    }

    /** Only a block in use may be freed; `free(NULL)` does nothing. */
    method Free(b: Option<Buffer>)
      requires Valid() && Held(b) <= live
      modifies this
      ensures Valid() && live == old(live) - Held(b)
    {
      if b.Some? {
        live := live - multiset{b.value.id};
      }
    }

    /** A buffer freed, and a copy of `data` in its place. */
    method Renew(b: Option<Buffer>, data: bytes) returns (now: Buffer)
      requires Valid() && Held(b) <= live
      modifies this
      ensures Valid() && live == old(live) - Held(b) + multiset{now.id} && now.data == data
    {
      Free(b);
      var id := Malloc();
      now := Buffer(id, data);
    }

    /** The same where the buffer is one of several in use. */
    method Swap(b: Option<Buffer>, data: bytes, ghost others: multiset<nat>) returns (now: Option<Buffer>)
      requires Valid() && live == Held(b) + others
      modifies this
      ensures Valid() && live == Held(now) + others && Data(now) == data
    {
      var renewed := Renew(b, data);
      now := Some(renewed);
    }

    method NewEntry(uri: bytes, text: bytes) returns (e: Entry)
      requires Valid()
      modifies this
      ensures Valid() && live == old(live) + OwnedBy(e) && e.uri.data == uri && e.text.data == text
    {
      var node := Malloc();
      var uriId := Malloc();
      var textId := Malloc();
      e := Entry(node, Buffer(uriId, uri), Buffer(textId, text));
    }

    method FreeEntry(e: Entry, ghost others: multiset<nat>)
      requires Valid() && live == others + OwnedBy(e)
      modifies this
      ensures Valid() && live == others
    {
      assert live == others + multiset{e.node} + multiset{e.text.id} + multiset{e.uri.id};
      Free(Some(e.uri));
      assert live == others + multiset{e.node} + multiset{e.text.id};
      Free(Some(e.text));
      Free(Some(Buffer(e.node, [])));
    }
  }

  /** `g_lsp_docs`. */
  class Docs {
    const heap: Heap
    const head: Link
    /** The nodes in order; the links, one more than the nodes; and what the nodes hold. */
    ghost var chain: seq<LspDoc>
    ghost var links: seq<Link>
    ghost var entries: seq<Entry>
    ghost var nodes: set<LspDoc>
    ghost var places: set<Link>

    constructor (heap: Heap)
      ensures this.heap == heap && Good() && Table(entries) == map[] && Owned(entries) == multiset{}
      ensures fresh(nodes) && fresh(places)
    {
      this.heap := heap;
      head := new Link(null);
      chain, entries := [], [];
      new;
      links, nodes, places := [head], {}, {head};
    }

    ghost predicate Owns()
      reads this
    {
      head in places && AllIn(chain, links, nodes, places)
    }

    ghost function NodeAt(i: nat): LspDoc?
      reads this`chain
    {
      if i < |chain| then chain[i] else null
    }

    /** The nodes are chained in order, hold the entries, and no URI appears twice. */
    ghost predicate Linked()
      reads this, chain, links
    {
      Chained() && Filled() && UrisDiffer(entries)
    }

    ghost predicate Chained()
      reads this`chain, this`links, links
    {
      && |links| == |chain| + 1 && links[0] == head
      && (forall i :: 0 <= i < |chain| ==> chain[i].next == links[i + 1])
      && (forall i :: 0 <= i < |links| ==> links[i].to == NodeAt(i))
      && Distinct(links)
    }

    ghost predicate Filled()
      reads this`chain, this`entries, chain
    {
      && |chain| == |entries|
      && forall i :: 0 <= i < |chain| ==> Entry(chain[i].node, chain[i].uri, chain[i].text) == entries[i]
    }

    ghost predicate Good()
      reads this, chain, links
    {
      Owns() && Linked()
    }

    /** Beside `others`, exactly the list's own blocks are in use. */
    ghost predicate Valid(others: multiset<nat>)
      reads this, chain, links, heap
    {
      Good() && heap.Valid() && heap.live == others + Owned(entries)
    }

    method Find(uri: bytes) returns (d: LspDoc?, ghost k: nat)
      requires Linked()
      ensures d == NodeAt(k)
      ensures d != null ==> k < |entries| && entries[k].uri.data == uri
      ensures d == null ==> forall i :: 0 <= i < |entries| ==> entries[i].uri.data != uri
    {
      d, k := head.to, 0;
      while d != null
        invariant k <= |chain| && d == NodeAt(k)
        invariant forall i :: 0 <= i < k ==> entries[i].uri.data != uri
        decreases |chain| - k
      {
        if d.uri.data == uri {
          return;
        }
        d, k := d.next.to, k + 1;
      }
    }

    method Get(uri: bytes) returns (text: bytes)
      requires Good()
      ensures text == if uri in Table(entries) then Table(entries)[uri] else []
    {
      var d, k := Find(uri);
      TableKeys(entries, uri);
      if d == null {
        return [];
      }
      TableAt(entries, k);
      text := d.text.data;
    }

    /** A new text in an old node. */
    method Replace(d: LspDoc, text: bytes, ghost k: nat, ghost others: multiset<nat>)
      requires Valid(others) && k < |chain| && d == chain[k]
      modifies this`entries, d`text, heap
      ensures Valid(others) && Table(entries) == old(Table(entries))[old(entries[k].uri.data) := text]
    {
      hide Owned, Table, UrisDiffer, Docs.Chained;
      OwnedAt(entries, k);
      Within(others, Owned(entries), d.text.id);
      var now := heap.Renew(Some(d.text), text);
      OwnedReplaced(entries, k, now);
      Exchanged(others, Owned(entries), d.text.id, now.id);
      TableReplaced(entries, k, now);
      PutText(d, now, k);
    }

    method PutText(d: LspDoc, text: Buffer, ghost k: nat)
      requires Linked() && k < |chain| && d == chain[k]
      modifies this`entries, d`text
      ensures Linked() && entries == old(entries[k := entries[k].(text := text)])
    {
      OnlyAt(links, k + 1);
      d.text := text;
      entries := entries[k := entries[k].(text := text)];
    }

    /** The new node's `next` is the old head; the head is the new node. */
    method Attach(d: LspDoc)
      requires Chained() && d.next !in links && d.next.to == head.to
      modifies head, this`chain, this`links
      ensures Chained() && old(links) != [] && chain == Front(d, old(chain)) && links == Second(d.next, old(links))
    {
      hide Distinct, Front, Second;
      ghost var nodes, places := chain, links;
      OnlyAt(links, 0);
      OneMore(links, d.next);
      FrontAt(d, chain);
      SecondAt(d.next, links);
      head.to := d;
      chain, links := Front(d, chain), Second(d.next, links);
      forall i | 0 <= i < |chain|
        ensures chain[i].next == links[i + 1]
      {
        assert i > 0 ==> chain[i] == nodes[i - 1] && links[i + 1] == places[i];
      }
      forall i | 0 <= i < |links|
        ensures links[i].to == NodeAt(i)
      {
        assert i > 1 ==> links[i] == places[i - 1];
      }
    }

    method Push(e: Entry)
      requires Linked() && Owns() && forall i :: 0 <= i < |entries| ==> entries[i].uri.data != e.uri.data
      modifies this, head
      ensures Linked() && Owns() && entries == Front(e, old(entries)) && fresh(nodes - old(nodes)) && fresh(places - old(places))
    {
      hide Distinct, UrisDiffer, Front, Second, AllIn, Docs.Chained;
      ghost var chained, linked, was := chain, links, entries;
      NewUri(entries, e);
      FrontAt(e, entries);
      var next := new Link(head.to);
      var d := new LspDoc(e, next);
      NotYetIn(chain, links, nodes, places, next);
      FrontAt(d, chain);
      Attach(d);
      MoreIn(chained, linked, nodes, places, d, next);
      entries, nodes, places := Front(e, entries), nodes + {d}, places + {next};
      forall i | 0 <= i < |chain|
        ensures Entry(chain[i].node, chain[i].uri, chain[i].text) == entries[i]
      {
        assert i > 0 ==> chain[i] == chained[i - 1] && entries[i] == was[i - 1];
      }
    }

    method Add(uri: bytes, text: bytes, ghost others: multiset<nat>)
      requires Valid(others)
      requires forall i :: 0 <= i < |entries| ==> entries[i].uri.data != uri
      modifies this, head, heap
      ensures Valid(others) && Table(entries) == old(Table(entries))[uri := text]
      ensures fresh(nodes - old(nodes)) && fresh(places - old(places))
    {
      hide Distinct, UrisDiffer, Owned, Table;
      var e := heap.NewEntry(uri, text);
      FirstEntry(e, entries);
      Push(e);
    }

    /** The list as a map: the URI's text is set, everything else stays. */
    method Set(uri: bytes, text: bytes, ghost others: multiset<nat>)
      requires Valid(others)
      modifies this, nodes, places, heap
      ensures Valid(others) && Table(entries) == old(Table(entries))[uri := text]
      ensures fresh(nodes - old(nodes)) && fresh(places - old(places))
    {
      hide Distinct, UrisDiffer, Owned, Table, Docs.Chained;
      var d, k := Find(uri);
      if d != null {
        Replace(d, text, k, others);
      } else {
        Add(uri, text, others);
      }
    }

    /** Unlinks the node through the place that points to it, and frees its three blocks. */
    method Remove(uri: bytes, ghost others: multiset<nat>)
      requires Valid(others)
      modifies this, nodes, places, heap
      ensures Valid(others) && Table(entries) == old(Table(entries)) - {uri}
      ensures fresh(nodes - old(nodes)) && fresh(places - old(places))
    {
      var slot := head;
      ghost var k := 0;
      while slot.to != null
        invariant k <= |chain| && slot == links[k]
        invariant forall i :: 0 <= i < k ==> entries[i].uri.data != uri
        decreases |chain| - k
      {
        if slot.to.uri.data == uri {
          assert links[k] in places;
          Unlink(slot, slot.to, k, others);
          return;
        }
        slot, k := slot.to.next, k + 1;
      }
      TableKeys(entries, uri);
    }

    /** `*slot = dead->next`. */
    method Bypass(slot: Link, dead: LspDoc, ghost k: nat)
      requires Chained() && k < |chain| && slot == links[k] && dead == chain[k]
      modifies slot, this`chain, this`links
      ensures Chained() && chain == old(Without(chain, k)) && links == old(Without(links, k + 1))
    {
      hide Distinct, Without;
      StillApart(links, k + 1);
      OnlyAt(links, k);
      slot.to := dead.next.to;
      WithoutAt(chain, k);
      WithoutAt(links, k + 1);
      ghost var nodes, places := chain, links;
      chain, links := Without(chain, k), Without(links, k + 1);
      forall i | 0 <= i < |chain|
        ensures chain[i].next == links[i + 1]
      {
        assert chain[i] == if i < k then nodes[i] else nodes[i + 1];
      }
      forall i | 0 <= i < |links|
        ensures links[i].to == NodeAt(i)
      {
        assert links[i] == if i <= k then places[i] else places[i + 1];
      }
    }

    method Detach(slot: Link, dead: LspDoc, ghost k: nat)
      requires Linked() && Owns() && k < |chain| && slot == links[k] && dead == chain[k]
      modifies slot, this`chain, this`links, this`entries
      ensures Linked() && Owns() && entries == old(Without(entries, k))
      ensures Entry(dead.node, dead.uri, dead.text) == old(entries[k])
    {
      hide UrisDiffer, Distinct, Without, AllIn;
      StillDiffer(entries, k);
      FewerIn(chain, links, nodes, places, k);
      WithoutAt(chain, k);
      WithoutAt(entries, k);
      ghost var nodes, was := chain, entries;
      Bypass(slot, dead, k);
      entries := Without(entries, k);
      hide Docs.Chained;
      forall i | 0 <= i < |chain|
        ensures Entry(chain[i].node, chain[i].uri, chain[i].text) == entries[i]
      {
        assert chain[i] == if i < k then nodes[i] else nodes[i + 1];
        assert entries[i] == if i < k then was[i] else was[i + 1];
      }
    }

    method Unlink(slot: Link, dead: LspDoc, ghost k: nat, ghost others: multiset<nat>)
      requires Valid(others) && k < |chain| && slot == links[k] && dead == chain[k]
      modifies this, slot, heap
      ensures Valid(others) && Table(entries) == old(Table(entries)) - {old(entries[k].uri.data)}
      ensures nodes == old(nodes) && places == old(places)
    {
      hide Owned, Table, UrisDiffer, Distinct, Without, OwnedBy, AllIn, Docs.Chained;
      TableRemoved(entries, k);
      OwnedSplit(entries, k);
      Detach(slot, dead, k);
      heap.FreeEntry(Entry(dead.node, dead.uri, dead.text), others + Owned(entries));
    }
  }

  lemma Within(others: multiset<nat>, owned: multiset<nat>, id: nat)
    requires id in owned
    ensures multiset{id} <= others + owned
  {
  }

  lemma Exchanged(others: multiset<nat>, owned: multiset<nat>, id: nat, now: nat)
    requires id in owned
    ensures others + owned - multiset{id} + multiset{now} == others + (owned - multiset{id} + multiset{now})
  {
  }

  lemma OwnedAt(es: seq<Entry>, k: nat)
    requires k < |es|
    ensures OwnedBy(es[k]) <= Owned(es) && es[k].text.id in Owned(es)
  {
    OwnedSplit(es, k);
  }

  // ----- All of the state -----

  lemma Grouped(a: multiset<nat>, b: multiset<nat>, c: multiset<nat>, d: multiset<nat>)
    ensures a + b + c + d == a + (b + c + d) == b + (a + c + d) == c + (a + b + d)
  {
  }

  class Server {
    const heap: Heap
    const docs: Docs
    var active: Option<Buffer>
    var pending: bool
    var cg: Option<Pointer>
    var cachedUri: Option<Buffer>
    var cachedText: Option<Buffer>
    /** How often the arena has been reset. */
    var resets: nat

    /** The blocks beside the list's. */
    ghost function Beside(): multiset<nat>
      reads this`active, this`cachedUri, this`cachedText
    {
      Held(active) + Held(cachedUri) + Held(cachedText)
    }

    /** In use are exactly the blocks the state points to, each once: none is lost, none freed twice. */
    ghost predicate Valid()
      reads this`active, this`cachedUri, this`cachedText, heap, docs, docs.chain, docs.links
    {
      docs.heap == heap && docs.Valid(Beside())
    }

    ghost function Abs(): State
      reads this, docs
    {
      State(Table(docs.entries), Data(active), pending, cg, Data(cachedUri), Data(cachedText), resets)
    }

    constructor ()
      ensures Valid() && Abs() == START && fresh(heap) && fresh(docs) && fresh(docs.nodes) && fresh(docs.places)
    {
      hide Docs.Good, Table, Owned;
      var blocks := new Heap();
      heap := blocks;
      docs := new Docs(blocks);
      active, pending, cg, cachedUri, cachedText, resets := None, false, None, None, None, 0;
    }

    method SetActive(uri: bytes)
      requires Valid()
      modifies this`active, heap
      ensures Valid() && Abs() == Next(old(Abs()), Op.SetActive(uri))
    {
      hide Owned, Docs.Good, Table, Held, Heap.Valid;
      ghost var others := Held(cachedUri) + Held(cachedText) + Owned(docs.entries);
      Grouped(Held(active), Held(cachedUri), Held(cachedText), Owned(docs.entries));
      active := heap.Swap(active, uri, others);
      Grouped(Held(active), Held(cachedUri), Held(cachedText), Owned(docs.entries));
    }

    method CacheLookup(uri: bytes, text: bytes) returns (hit: int)
      ensures Number(hit) == Says(Abs(), Lookup(uri, text))
    {
      if cg.None? {
        return 0;
      }
      if Data(cachedUri) != uri {
        return 0;
      }
      if Data(cachedText) != text {
        return 0;
      }
      return 1;
    }

    method CacheUri(uri: bytes)
      requires Valid()
      modifies this`cachedUri, heap
      ensures Valid() && Abs() == old(Abs()).(cachedUri := uri)
    {
      hide Owned, Docs.Good, Held, Heap.Valid;
      ghost var others := Held(active) + Held(cachedText) + Owned(docs.entries);
      Grouped(Held(active), Held(cachedUri), Held(cachedText), Owned(docs.entries));
      cachedUri := heap.Swap(cachedUri, uri, others);
      Grouped(Held(active), Held(cachedUri), Held(cachedText), Owned(docs.entries));
    }

    method CacheText(text: bytes)
      requires Valid()
      modifies this`cachedText, heap
      ensures Valid() && Abs() == old(Abs()).(cachedText := text)
    {
      hide Owned, Docs.Good, Held, Heap.Valid;
      ghost var others := Held(active) + Held(cachedUri) + Owned(docs.entries);
      Grouped(Held(active), Held(cachedUri), Held(cachedText), Owned(docs.entries));
      cachedText := heap.Swap(cachedText, text, others);
      Grouped(Held(active), Held(cachedUri), Held(cachedText), Owned(docs.entries));
    }

    method CacheStore(uri: bytes, text: bytes, pointer: Option<Pointer>)
      requires Valid()
      modifies this, heap
      ensures Valid() && Abs() == Next(old(Abs()), Store(uri, text, pointer))
    {
      hide Server.Valid, Table;
      CacheUri(uri);
      CacheText(text);
      cg := pointer;
    }

    /** Any one call: the answer and the new state are those of the calls on values. */
    method Do(op: Op) returns (reply: Reply)
      requires Valid()
      modifies this, heap, docs, docs.nodes, docs.places
      ensures Valid() && Abs() == Next(old(Abs()), op) && reply == Says(old(Abs()), op)
      ensures fresh(docs.nodes - old(docs.nodes)) && fresh(docs.places - old(docs.places))
    {
      hide Owned, Docs.Good, Table, Held, Heap.Valid;
      reply := Nothing;
      match op {
        case SetDoc(uri, text) =>
          docs.Set(uri, text, Beside());
        case GetDoc(uri) =>
          var text := docs.Get(uri);
          reply := Text(text);
        case RemoveDoc(uri) =>
          docs.Remove(uri, Beside());
        case SetActive(uri) =>
          SetActive(uri);
        case GetActive =>
          reply := Text(Data(active));
        case SetPending(v) =>
          pending := v != 0;
        case GetPending =>
          reply := Number(if pending then 1 else 0);
        case Lookup(uri, text) =>
          var hit := CacheLookup(uri, text);
          reply := Number(hit);
        case GetCg =>
          reply := Cg(cg);
        case Store(uri, text, pointer) =>
          CacheStore(uri, text, pointer);
        case Invalidate =>
          cg := None;
        case ArenaReset =>
          resets := resets + 1;
      }
    }
  }

  /** Any run of calls from the start answers as the calls on values do. */
  method Run(ops: seq<Op>) returns (replies: seq<Reply>)
    ensures replies == Replies(ops)
  {
    hide Server.Valid, Server.Abs, Next, Says;
    var server := new Server();
    replies := [];
    var i := 0;
    while i < |ops|
      invariant 0 <= i <= |ops|
      invariant fresh(server) && fresh(server.heap) && fresh(server.docs) && fresh(server.docs.nodes) && fresh(server.docs.places)
      invariant server.Valid()
      invariant server.Abs() == After(ops[..i]) && replies == Replies(ops[..i])
    {
      var reply := server.Do(ops[i]);
      assert ops[..i + 1][..i] == ops[..i];
      replies := replies + [reply];
      i := i + 1;
    }
    assert ops[..i] == ops;
  }
}
