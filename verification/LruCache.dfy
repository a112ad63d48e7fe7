/** The cache as it is built: a list of nodes and a map from keys to places in that list. */
module LruCache {
  import opened Finite
  import opened LruSpec
  import opened Text

  /** A list node; a reference to one plays the part of a list iterator. */
  class Node<K, V> {
    const key: K
    const value: V

    constructor (key: K, value: V)
      ensures this.key == key && this.value == value
    {
      this.key, this.value := key, value;
    }
  }

  function Entry<K, V>(n: Node<K, V>): (K, V) { (n.key, n.value) }

  function EntriesOf<K, V>(list: seq<Node<K, V>>): (r: Entries<K, V>)
    ensures |r| == |list|
  {
    seq(|list|, i requires 0 <= i < |list| => Entry(list[i]))
  }

  function KeysOf<K, V>(list: seq<Node<K, V>>): (r: seq<K>)
    ensures |r| == |list|
  {
    seq(|list|, i requires 0 <= i < |list| => list[i].key)
  }

  /** List and map describe the same entries: every key once, mapped to its own node. */
  ghost predicate Agree<K, V>(list: seq<Node<K, V>>, index: map<K, Node<K, V>>) {
    && NoRepeats(KeysOf(list))
    && (forall n :: n in list ==> n.key in index && index[n.key] == n)
    && forall k :: k in index ==> index[k] in list && index[k].key == k
  }

  lemma KeysAgree<K, V>(list: seq<Node<K, V>>)
    ensures Keys(EntriesOf(list)) == KeysOf(list)
  {
  }

  lemma NodeHasKey<K, V>(list: seq<Node<K, V>>, k: K)
    ensures k in KeysOf(list) <==> exists n :: n in list && n.key == k
  {
    if k in KeysOf(list) {
      var i :| 0 <= i < |list| && KeysOf(list)[i] == k;
      assert list[i] in list && list[i].key == k;
    }
    forall n | n in list
      ensures n.key in KeysOf(list)
    {
      var i :| 0 <= i < |list| && list[i] == n;
      assert KeysOf(list)[i] == n.key;
    }
  }

  lemma IndexKeys<K, V>(list: seq<Node<K, V>>, index: map<K, Node<K, V>>, k: K)
    requires Agree(list, index)
    ensures k in KeysOf(list) <==> k in index
  {
    NodeHasKey(list, k);
    if k in index {
      assert index[k] in list;
    }
  }

  lemma SameSize<K, V>(list: seq<Node<K, V>>, index: map<K, Node<K, V>>)
    requires Agree(list, index)
    ensures |index| == |list|
  {
    var keys := KeysOf(list);
    DistinctCount(keys);
    forall k
      ensures k in keys <==> k in index.Keys
    {
      IndexKeys(list, index, k);
    }
    assert (set k | k in keys) == index.Keys;
  }

  /** `erase` of one place. */
  function Erase<K, V>(list: seq<Node<K, V>>, n: Node<K, V>): seq<Node<K, V>> {
    if list == [] then [] else if list[0] == n then list[1..] else [list[0]] + Erase(list[1..], n)
  }

  lemma {:induction false} EraseMembers<K, V>(list: seq<Node<K, V>>, n: Node<K, V>)
    requires NoRepeats(KeysOf(list)) && n in list
    ensures forall m :: m in Erase(list, n) <==> m in list && m != n
    ensures |Erase(list, n)| == |list| - 1
  {
    TailOf(list);
    if list[0] == n {
      assert n !in list[1..];
    } else {
      EraseMembers(list[1..], n);
    }
  }

  lemma TailNoRepeats<K>(s: seq<K>)
    requires s != [] && NoRepeats(s)
    ensures NoRepeats(s[1..]) && s[0] !in s[1..]
  {
    assert forall i :: 0 <= i < |s[1..]| ==> s[1..][i] == s[i + 1];
  }

  lemma TailOf<K, V>(list: seq<Node<K, V>>)
    requires list != []
    ensures KeysOf(list[1..]) == KeysOf(list)[1..] && EntriesOf(list[1..]) == EntriesOf(list)[1..]
    ensures NoRepeats(KeysOf(list)) ==> NoRepeats(KeysOf(list[1..])) && list[0].key !in KeysOf(list[1..])
    ensures NoRepeats(KeysOf(list)) ==> list[0] !in list[1..]
  {
    assert KeysOf(list[1..]) == KeysOf(list)[1..];
    if NoRepeats(KeysOf(list)) {
      TailNoRepeats(KeysOf(list));
      assert KeysOf(list)[0] == list[0].key;
      NodeHasKey(list[1..], list[0].key);
    }
  }

  /** Erasing the node of a key drops that key. */
  lemma {:induction false} EraseEntries<K, V>(list: seq<Node<K, V>>, n: Node<K, V>)
    requires NoRepeats(KeysOf(list)) && n in list
    ensures EntriesOf(Erase(list, n)) == Without(EntriesOf(list), n.key)
  {
    TailOf(list);
    if list[0] == n {
      KeysAgree(list[1..]);
      WithoutAbsent(EntriesOf(list[1..]), n.key);
    } else {
      EraseEntries(list[1..], n);
      NodeHasKey(list[1..], n.key);
    }
  }

  lemma {:induction false} LookupNode<K, V>(list: seq<Node<K, V>>, n: Node<K, V>)
    requires n in list && NoRepeats(KeysOf(list))
    ensures Lookup(EntriesOf(list), n.key) == Some(n.value)
  {
    TailOf(list);
    if list[0] != n {
      NodeHasKey(list[1..], n.key);
      LookupNode(list[1..], n);
    }
  }

  class LruCache<K(==), V> {
    const maxSize: nat
    var list: seq<Node<K, V>>
    var index: map<K, Node<K, V>>

    ghost predicate Valid()
      reads this
    {
      Agree(list, index) && |list| <= maxSize
    }

    ghost function Contents(): Entries<K, V>
      reads this
    {
      EntriesOf(list)
    }

    constructor (maxSize: nat)
      ensures Valid() && Contents() == [] && this.maxSize == maxSize
    {
      this.maxSize := maxSize;
      list, index := [], map[];
    }

    method Put(key: K, value: V)
      requires Valid()
      modifies this
      ensures Valid() && Contents() == PutEntry(old(Contents()), maxSize, key, value)
    {
      PushFront(key, value);
      SameSize(list, index);
      Evict();
    }

    /** Puts a new node in front and takes the old one of its key out. */
    method PushFront(key: K, value: V)
      requires Valid()
      modifies this
      ensures Agree(list, index) && |list| <= old(|list|) + 1
      ensures Contents() == [(key, value)] + Without(old(Contents()), key)
    {
      var found := key in index;
      var n := new Node(key, value);
      ghost var before := list;
      list := [n] + list;
      if found {
        EraseOld(before, index, key, n);
        list := Erase(list, index[key]);
        index := index - {key};
      }
      index := index[key := n];
      assert index == old(index)[key := n];
      FrontAgrees(before, old(index), key, n, list, index);
    }

    /** Drops the last entry when there is one too many. */
    method Evict()
      requires Agree(list, index) && |list| <= maxSize + 1
      modifies this
      ensures Valid()
      ensures Contents()
              == if |old(Contents())| > maxSize then old(Contents())[..|old(Contents())| - 1] else old(Contents())
    {
      SameSize(list, index);
      if |index| > maxSize {
        var last := list[|list| - 1];
        DropLast(list, index);
        index := index - {last.key};
        list := list[..|list| - 1];
      }
    }

    method Get(key: K) returns (r: Option<V>)
      requires Valid()
      modifies this
      ensures Valid() && Contents() == Touch(old(Contents()), key) && r == Lookup(old(Contents()), key)
    {
      PlaceOf(list, index, key);
      if key !in index {
        return None;
      }
      var it := index[key];
      EraseMembers(list, it);
      FrontAgrees(list, index, key, it, [it] + Erase(list, it), index);
      list := [it] + Erase(list, it);
      return Some(it.value);
    }

    method Exists(key: K) returns (b: bool)
      requires Valid()
      ensures b == Lookup(Contents(), key).Some?
    {
      PlaceOf(list, index, key);
      b := key in index;
    }

    method Size() returns (n: nat)
      requires Valid()
      ensures n == |Contents()| <= maxSize
    {
      SameSize(list, index);
      n := |index|;
    }

    method Clear()
      requires Valid()
      modifies this
      ensures Valid() && Contents() == []
    {
      list, index := [], map[];
    }
  }

  lemma PlaceOf<K, V>(list: seq<Node<K, V>>, index: map<K, Node<K, V>>, key: K)
    requires Agree(list, index)
    ensures key in index <==> Lookup(EntriesOf(list), key).Some?
    ensures key in index ==> Lookup(EntriesOf(list), key) == Some(index[key].value)
  {
    LookupIsMembership(EntriesOf(list), key);
    KeysAgree(list);
    IndexKeys(list, index, key);
    if key in index {
      LookupNode(list, index[key]);
    }
  }

  /** Erasing the old node of a key behind the new one leaves the new one and the other keys. */
  lemma EraseOld<K, V>(list: seq<Node<K, V>>, index: map<K, Node<K, V>>, key: K, n: Node<K, V>)
    requires Agree(list, index) && key in index && n !in list
    ensures Erase([n] + list, index[key]) == [n] + Erase(list, index[key])
  {
    assert ([n] + list)[1..] == list;
  }

  /** The nodes left when a key is taken out. */
  ghost function OthersOf<K, V>(list: seq<Node<K, V>>, index: map<K, Node<K, V>>, key: K): seq<Node<K, V>> {
    if key in index then Erase(list, index[key]) else list
  }

  lemma OthersEntries<K, V>(list: seq<Node<K, V>>, index: map<K, Node<K, V>>, key: K)
    requires Agree(list, index)
    ensures EntriesOf(OthersOf(list, index, key)) == Without(EntriesOf(list), key)
    ensures |OthersOf(list, index, key)| <= |list|
    ensures forall m :: m in OthersOf(list, index, key) <==> m in list && !(key in index && m == index[key])
  {
    IndexKeys(list, index, key);
    KeysAgree(list);
    if key in index {
      EraseMembers(list, index[key]);
      EraseEntries(list, index[key]);
    } else {
      WithoutAbsent(EntriesOf(list), key);
    }
  }

  lemma OthersKeys<K, V>(list: seq<Node<K, V>>, index: map<K, Node<K, V>>, key: K)
    requires Agree(list, index)
    ensures NoRepeats([key] + KeysOf(OthersOf(list, index, key)))
  {
    var rest := OthersOf(list, index, key);
    OthersEntries(list, index, key);
    KeysAgree(list);
    KeysAgree(rest);
    KeysOfWithout(EntriesOf(list), key);
    WithoutKeyNoRepeats(KeysOf(list), key);
    PrependFresh(key, KeysOf(rest));
  }

  /** A node put in front of the nodes of the other keys. */
  lemma FrontAgrees<K, V>(list: seq<Node<K, V>>, index: map<K, Node<K, V>>, key: K, n: Node<K, V>,
                          after: seq<Node<K, V>>, index': map<K, Node<K, V>>)
    requires Agree(list, index) && n.key == key
    requires after == [n] + OthersOf(list, index, key)
    requires index' == index[key := n]
    ensures Agree(after, index') && |after| <= |list| + 1
    ensures EntriesOf(after) == [Entry(n)] + Without(EntriesOf(list), key)
  {
    var rest := OthersOf(list, index, key);
    OthersEntries(list, index, key);
    OthersKeys(list, index, key);
    assert EntriesOf(after) == [Entry(n)] + EntriesOf(rest);
    assert KeysOf(after) == [key] + KeysOf(rest);
    RestMembers(list, index, key, rest);
  }

  lemma RestMembers<K, V>(list: seq<Node<K, V>>, index: map<K, Node<K, V>>, key: K, rest: seq<Node<K, V>>)
    requires Agree(list, index)
    requires forall m :: m in rest <==> m in list && !(key in index && m == index[key])
    ensures forall m :: m in rest ==> m.key != key && m.key in index && index[m.key] == m
    ensures forall k :: k in index && k != key ==> index[k] in rest && index[k].key == k
  {
  }

  lemma DropLast<K, V>(list: seq<Node<K, V>>, index: map<K, Node<K, V>>)
    requires Agree(list, index) && list != []
    ensures Agree(list[..|list| - 1], index - {list[|list| - 1].key})
    ensures EntriesOf(list[..|list| - 1]) == EntriesOf(list)[..|list| - 1]
  {
    var last, front := list[|list| - 1], list[..|list| - 1];
    assert KeysOf(front) == KeysOf(list)[..|front|];
    assert list == front + [last];
    forall n | n in front
      ensures n.key != last.key
    {
      var i :| 0 <= i < |front| && front[i] == n;
      assert KeysOf(list)[i] == n.key && KeysOf(list)[|front|] == last.key;
    }
  }
}
