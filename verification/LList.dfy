/**
 The intrusive doubly-linked list.  An entry is embedded in the object it links; `value` stands
 for that object (`container_of`).
 */
module LinkedLists {

  class Entry<V> {
    var next: Entry?<V>
    var prev: Entry?<V>
    var list: LList?<V>
    const value: V

    constructor (value: V)
      ensures next == null && prev == null && list == null && this.value == value
    {
      next, prev, list := null, null, null;
      this.value := value;
    }
  }

  /** `s` without its element `k`. */
  ghost function Without<T>(s: seq<T>, k: nat): seq<T>
    requires k < |s|
  {
    s[..k] + s[k + 1..]
  }

  ghost predicate Distinct<T>(s: seq<T>) {
    forall i, j :: 0 <= i < j < |s| ==> s[i] != s[j]
  }

  class LList<V> {
    var head: Entry?<V>
    var tail: Entry?<V>
    ghost var nodes: seq<Entry<V>>

    /** The links describe exactly the sequence `nodes`, and every entry knows its list. */
    ghost predicate Valid()
      reads this, nodes
    {
      && Distinct(nodes)
      && head == (if nodes == [] then null else nodes[0])
      && tail == (if nodes == [] then null else nodes[|nodes| - 1])
      && (forall i {:trigger nodes[i].list} :: 0 <= i < |nodes| ==> nodes[i].list == this)
      && (forall i {:trigger nodes[i].next} :: 0 <= i < |nodes| ==>
            nodes[i].next == (if i + 1 < |nodes| then nodes[i + 1] else null))
      && (forall i {:trigger nodes[i].prev} :: 0 <= i < |nodes| ==>
            nodes[i].prev == (if i > 0 then nodes[i - 1] else null))
    }

    constructor ()
      ensures Valid() && nodes == []
    {
      head, tail, nodes := null, null, [];
    }

    predicate IsEmpty()
      requires Valid()
      reads this, nodes
      ensures IsEmpty() <==> nodes == []
    {
      head == null
    }

    method Append(entry: Entry<V>)
      requires Valid() && entry !in nodes
      modifies this, entry, nodes
      ensures Valid() && nodes == old(nodes) + [entry]
    {
      entry.list := this;
      entry.next := null;
      if head == null || tail == null {
        entry.prev := null;
        head := entry;
        tail := entry;
      } else {
        tail.next := entry;
        entry.prev := tail;
        tail := entry;
      }
      nodes := nodes + [entry];
    }

    /** Follows the links and counts. */
    method Length() returns (len: nat)
      requires Valid()
      ensures len == |nodes|
    {
      len := 0;
      var cursor := head;
      while cursor != null
        invariant len <= |nodes|
        invariant cursor == if len < |nodes| then nodes[len] else null
        decreases |nodes| - len
      {
        len := len + 1;
        cursor := cursor.next;
      }
    }

    /** The entry at position `index`, or null behind the end. */
    method GetEntry(index: nat) returns (entry: Entry?<V>)
      requires Valid()
      ensures entry == if index < |nodes| then nodes[index] else null
    {
      var left, cursor := index, head;
      ghost var k := 0;
      while cursor != null
        invariant k <= |nodes| && left == index - k >= 0
        invariant cursor == if k < |nodes| then nodes[k] else null
        decreases |nodes| - k
      {
        if left == 0 {
          return cursor;
        }
        left := left - 1;
        k := k + 1;
        cursor := cursor.next;
      }
      return null;
    }
  }

  /** The linked objects, in order. */
  ghost function Values<V>(list: LList<V>): (s: seq<V>)
    reads list
    ensures |s| == |list.nodes|
  {
    seq(|list.nodes|, i requires 0 <= i < |list.nodes| reads list => list.nodes[i].value)
  }

  /** Unlinks an entry wherever it is in its list, without a search. */
  method Remove<V>(entry: Entry<V>, ghost k: nat)
    requires entry.list != null && entry.list.Valid()
    requires k < |entry.list.nodes| && entry.list.nodes[k] == entry
    modifies entry.list, entry.list.nodes
    ensures old(entry.list).Valid() && old(entry.list).nodes == Without(old(entry.list.nodes), k)
    ensures entry.next == null && entry.prev == null && entry.list == null
  {
    var list := entry.list;
    ghost var nodes := list.nodes;
    assert entry.next == (if k + 1 < |nodes| then nodes[k + 1] else null);
    assert entry.prev == (if k > 0 then nodes[k - 1] else null);
    if entry == list.head {
      list.head := entry.next;
    }
    if entry == list.tail {
      list.tail := entry.prev;
    }
    if entry.next != null {
      entry.next.prev := entry.prev;
    }
    if entry.prev != null {
      entry.prev.next := entry.next;
    }
    entry.next := null;
    entry.prev := null;
    entry.list := null;
    ghost var w := Without(nodes, k);
    list.nodes := w;
    WithoutRemoves(nodes, k);
    forall i | 0 <= i < |w|
      ensures w[i].list == list
      ensures w[i].next == (if i + 1 < |w| then w[i + 1] else null)
      ensures w[i].prev == (if i > 0 then w[i - 1] else null)
    {
      var o := if i < k then i else i + 1;
      assert w[i] == nodes[o] && nodes[o] != entry;
    }
  }

  /** No entry is in two lists. */
  lemma ListsAreDisjoint<V>(a: LList<V>, b: LList<V>, e: Entry<V>)
    requires a.Valid() && b.Valid() && e in a.nodes && e in b.nodes
    ensures a == b
  {
    var i :| 0 <= i < |a.nodes| && a.nodes[i] == e;
    var j :| 0 <= j < |b.nodes| && b.nodes[j] == e;
    assert a.nodes[i].list == a && b.nodes[j].list == b;
  }

  /** Removing an entry takes it out of the list and leaves the order of the others. */
  lemma WithoutRemoves<T>(s: seq<T>, k: nat)
    requires k < |s| && Distinct(s)
    ensures s[k] !in Without(s, k) && Distinct(Without(s, k))
    ensures forall x :: x in Without(s, k) <==> x in s && x != s[k]
  {
    var w := Without(s, k);
    forall x | x in s && x != s[k] ensures x in w {
      var i :| 0 <= i < |s| && s[i] == x;
      assert if i < k then w[i] == x else w[i - 1] == x;
    }
  }

  /** Removing an entry and appending it again moves it to the end. */
  method MoveToEnd<V>(list: LList<V>, entry: Entry<V>, ghost k: nat)
    requires list.Valid() && k < |list.nodes| && list.nodes[k] == entry
    modifies list, list.nodes
    ensures list.Valid() && list.nodes == Without(old(list.nodes), k) + [entry]
  {
    assert list.nodes[k].list == list;
    WithoutRemoves(list.nodes, k);
    Remove(entry, k);
    list.Append(entry);
  }
}
