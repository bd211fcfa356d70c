/**
 Whole runs of the hash map against the plainest reference there is: a finite map from key bytes to values,
 next to the sequence of key pointers in insertion order.
 */
module HashMapRuns {
  import opened Buckets
  import opened HashMaps

  datatype Command =
    | DoSet(key: Key, value: nat)
    | DoSetFree(key: Key, value: nat)
    | DoGetSet(key: Key, value: nat)
    | DoGet(key: Key)
    | DoRemove(key: Key)
    | DoSize
    | DoIterate

  datatype Answer =
    | Nothing
    | Found(present: bool, value: nat)
    | Freed(entry: Option<Entry>)
    | Number(n: int)
    | Visited(entries: seq<Entry>)

  // ----- The reference

  datatype Reference = Reference(content: map<Bytes, nat>, keys: seq<Key>)

  ghost function WithoutKey(keys: seq<Key>, bytes: Bytes): seq<Key> {
    if keys == [] then []
    else WithoutKey(keys[..|keys| - 1], bytes) + (if keys[|keys| - 1].bytes == bytes then [] else [keys[|keys| - 1]])
  }

  ghost function WithKey(keys: seq<Key>, key: Key): seq<Key> {
    seq(|keys|, i requires 0 <= i < |keys| => if keys[i].bytes == key.bytes then key else keys[i])
  }

  ghost function StoredKey(keys: seq<Key>, bytes: Bytes): Option<Key> {
    if keys == [] then None
    else if keys[|keys| - 1].bytes == bytes then Some(keys[|keys| - 1])
    else StoredKey(keys[..|keys| - 1], bytes)
  }

  /** The stored pointer and value for a key, if it is present. */
  ghost function Stored(s: Reference, bytes: Bytes): Option<Entry> {
    var k := StoredKey(s.keys, bytes);
    if bytes in s.content && k.Some? then Some(Entry(k.value, s.content[bytes])) else None
  }

  ghost function Listing(s: Reference): seq<Entry> {
    seq(|s.keys|, i requires 0 <= i < |s.keys| =>
      Entry(s.keys[i], if s.keys[i].bytes in s.content then s.content[s.keys[i].bytes] else 0))
  }

  ghost function Next(s: Reference, c: Command): Reference {
    match c
    case DoSet(key, value) =>
      Reference(s.content[key.bytes := value], if key.bytes in s.content then s.keys else s.keys + [key])
    case DoSetFree(key, value) =>
      Reference(s.content[key.bytes := value], if key.bytes in s.content then WithKey(s.keys, key) else s.keys + [key])
    case DoGetSet(key, value) =>
      if key.bytes in s.content then s else Reference(s.content[key.bytes := value], s.keys + [key])
    case DoRemove(key) => Reference(s.content - {key.bytes}, WithoutKey(s.keys, key.bytes))
    case _ => s
  }

  ghost function Reply(s: Reference, c: Command): Answer {
    match c
    case DoSet(key, value) => Nothing
    case DoSetFree(key, value) => Freed(Stored(s, key.bytes))
    case DoGetSet(key, value) =>
      if key.bytes in s.content then Found(true, s.content[key.bytes]) else Found(false, value)
    case DoGet(key) => if key.bytes in s.content then Found(true, s.content[key.bytes]) else Found(false, 0)
    case DoRemove(key) => Freed(Stored(s, key.bytes))
    case DoSize => Number(|s.content|)
    case DoIterate => Visited(Listing(s))
  }

  ghost function Replies(s: Reference, cs: seq<Command>): seq<Answer>
    decreases |cs|
  {
    if cs == [] then [] else [Reply(s, cs[0])] + Replies(Next(s, cs[0]), cs[1..])
  }

  // ----- What the answers have to do with each other

  /** Every key of the map is listed, and no other. */
  ghost predicate Consistent(s: Reference) {
    forall bytes :: bytes in s.content <==> exists i :: 0 <= i < |s.keys| && s.keys[i].bytes == bytes
  }

  /** After a key is written, asking for it gives what was written; after get_set, what was there before if anything. */
  lemma AnswersAfter(s: Reference, key: Key, again: Key, value: nat)
    requires again.bytes == key.bytes
    ensures Reply(Next(s, DoSet(key, value)), DoGet(again)) == Found(true, value)
    ensures Reply(Next(s, DoSetFree(key, value)), DoGet(again)) == Found(true, value)
    ensures Reply(Next(s, DoRemove(key)), DoGet(again)) == Found(false, 0)
    ensures var before := Reply(s, DoGet(key));
            && before.Found?
            && Reply(s, DoGetSet(key, value)) == (if before.present then before else Found(false, value))
            && Reply(Next(s, DoGetSet(key, value)), DoGet(again))
            == (if before.present then before else Found(true, value))
  {
    hide WithoutKey, WithKey;
  }

  /** No command changes the answer for another key. */
  lemma OthersKept(s: Reference, c: Command, other: Key)
    requires c.DoSet? || c.DoSetFree? || c.DoGetSet? || c.DoRemove? ==> c.key.bytes != other.bytes
    ensures Reply(Next(s, c), DoGet(other)) == Reply(s, DoGet(other))
  {
    hide WithoutKey, WithKey;
  }

  /** The size goes up by one with a new key and down by one with a removed one. */
  lemma SizesAfter(s: Reference, key: Key, value: nat)
    ensures var n, known := |s.content|, Reply(s, DoGet(key)) != Found(false, 0);
            && Reply(s, DoSize) == Number(n)
            && Reply(Next(s, DoSet(key, value)), DoSize) == Number(if known then n else n + 1)
            && Reply(Next(s, DoSetFree(key, value)), DoSize) == Number(if known then n else n + 1)
            && Reply(Next(s, DoGetSet(key, value)), DoSize) == Number(if known then n else n + 1)
            && Reply(Next(s, DoRemove(key)), DoSize) == Number(if known then n - 1 else n)
  {
    hide WithoutKey, WithKey;
    SizesOfMaps(s.content, key.bytes, value);
  }

  lemma SizesOfMaps(m: map<Bytes, nat>, bytes: Bytes, value: nat)
    ensures |m[bytes := value]| == if bytes in m then |m| else |m| + 1
    ensures |m - {bytes}| == if bytes in m then |m| - 1 else |m|
  {
    if bytes in m {
      var rest := m - {bytes};
      assert m == rest[bytes := m[bytes]];
      assert m[bytes := value].Keys == m.Keys;
    } else {
      assert m - {bytes} == m;
    }
  }

  /** set keeps a stored key pointer and set_free replaces it; the callback is handed what was stored. */
  lemma PointersAfter(s: Reference, key: Key, again: Key, value: nat)
    requires Consistent(s) && again.bytes == key.bytes
    ensures Reply(Next(s, DoSetFree(key, value)), DoRemove(again)) == Freed(Some(Entry(key, value)))
    ensures var before := Reply(s, DoRemove(again));
            && before.Freed?
            && (before.entry == None ==>
                Reply(Next(s, DoSet(key, value)), DoRemove(again)) == Freed(Some(Entry(key, value))))
            && (before.entry.Some? ==>
                Reply(Next(s, DoSet(key, value)), DoRemove(again)) == Freed(Some(Entry(before.entry.value.key, value))))
  {
    StoredAfter(s.keys, key);
  }

  /** A new key is listed behind the others; writing a known key leaves all places as they are. */
  lemma ListedAfter(s: Reference, key: Key, value: nat)
    requires Consistent(s)
    ensures var before, after := Reply(s, DoIterate), Reply(Next(s, DoSet(key, value)), DoIterate);
            && before.Visited? && after.Visited?
            && (Reply(s, DoGet(key)) == Found(false, 0) ==> after.entries == before.entries + [Entry(key, value)])
            && (Reply(s, DoGet(key)) != Found(false, 0) ==>
                && |after.entries| == |before.entries|
                && forall i :: 0 <= i < |before.entries| ==>
                     var e := before.entries[i];
                     after.entries[i] == Entry(e.key, if e.key.bytes == key.bytes then value else e.value))
  {
    hide WithoutKey, WithKey, StoredKey;
  }

  /** The keys of entries are those of their map. */
  lemma ViewConsistent(es: seq<Entry>)
    ensures Consistent(View(es))
  {
    hide ToMap, Lookup;
    forall bytes
      ensures bytes in ToMap(es) <==> exists i :: 0 <= i < |Keys(es)| && Keys(es)[i].bytes == bytes
    {
      MapLookup(es, bytes);
      if Has(es, bytes) {
        var k :| 0 <= k < |es| && es[k].key.bytes == bytes;
        assert Keys(es)[k].bytes == bytes;
      }
    }
  }

  lemma {:induction false} StoredAfter(keys: seq<Key>, key: Key)
    ensures StoredKey(keys + [key], key.bytes) == Some(key)
    ensures StoredKey(keys, key.bytes).Some? <==> exists i :: 0 <= i < |keys| && keys[i].bytes == key.bytes
    ensures StoredKey(keys, key.bytes).Some? ==> StoredKey(WithKey(keys, key), key.bytes) == Some(key)
  {
    assert (keys + [key])[|keys|] == key;
    if keys != [] {
      var n := |keys| - 1;
      StoredAfter(keys[..n], key);
      assert WithKey(keys, key)[..n] == WithKey(keys[..n], key);
      assert forall i :: 0 <= i < n ==> keys[..n][i] == keys[i];
    }
  }

  // ----- The entries of the hash map as a reference state

  ghost function Keys(es: seq<Entry>): seq<Key> {
    seq(|es|, i requires 0 <= i < |es| => es[i].key)
  }

  ghost function View(es: seq<Entry>): Reference {
    Reference(ToMap(es), Keys(es))
  }

  lemma {:induction false} ReplaceAt(es: seq<Entry>, bytes: Bytes, e: Entry)
    ensures |Replace(es, bytes, e)| == |es|
    ensures forall i :: 0 <= i < |es| ==> Replace(es, bytes, e)[i] == if es[i].key.bytes == bytes then e else es[i]
  {
    if es != [] {
      ReplaceAt(es[..|es| - 1], bytes, e);
    }
  }

  lemma {:induction false} KeysDrop(es: seq<Entry>, bytes: Bytes)
    ensures Keys(Drop(es, bytes)) == WithoutKey(Keys(es), bytes)
  {
    if es != [] {
      var n := |es| - 1;
      KeysDrop(es[..n], bytes);
      assert Keys(es)[..n] == Keys(es[..n]);
      assert Keys(Drop(es, bytes)) ==
        Keys(Drop(es[..n], bytes)) + (if es[n].key.bytes == bytes then [] else [es[n].key]);
    }
  }

  lemma {:induction false} StoredIsLookup(es: seq<Entry>, bytes: Bytes)
    ensures Lookup(es, bytes) == Stored(View(es), bytes)
  {
    StoredKeyIsLookup(es, bytes);
    MapLookup(es, bytes);
  }

  lemma {:induction false} StoredKeyIsLookup(es: seq<Entry>, bytes: Bytes)
    ensures StoredKey(Keys(es), bytes) == match Lookup(es, bytes) { case Some(e) => Some(e.key) case None => None }
  {
    if es != [] {
      assert Keys(es)[..|es| - 1] == Keys(es[..|es| - 1]);
      StoredKeyIsLookup(es[..|es| - 1], bytes);
    }
  }

  lemma {:induction false} LookupIsElement(es: seq<Entry>, bytes: Bytes, i: nat)
    requires UniqueKeys(es) && i < |es| && es[i].key.bytes == bytes
    ensures Lookup(es, bytes) == Some(es[i])
  {
    if i < |es| - 1 {
      LookupIsElement(es[..|es| - 1], bytes, i);
    }
  }

  lemma ListingIsEntries(es: seq<Entry>)
    requires UniqueKeys(es)
    ensures Listing(View(es)) == es
  {
    forall i | 0 <= i < |es| ensures Listing(View(es))[i] == es[i] {
      LookupIsElement(es, es[i].key.bytes, i);
      MapLookup(es, es[i].key.bytes);
    }
  }

  lemma AppendView(es: seq<Entry>, key: Key, value: nat)
    ensures View(es + [Entry(key, value)]) == Reference(ToMap(es)[key.bytes := value], Keys(es) + [key])
  {
    MapSnoc(es, Entry(key, value));
  }

  /** Overwriting or appending an entry is an update of the finite map. */
  lemma SetView(es: seq<Entry>, key: Key, value: nat, free: bool)
    requires UniqueKeys(es)
    ensures View(SetSpec(es, key, value, free))
         == Next(View(es), if free then DoSetFree(key, value) else DoSet(key, value))
  {
    hide Lookup, Has, Replace, ToMap, UniqueKeys;
    MapLookup(es, key.bytes);
    match Lookup(es, key.bytes)
    case None =>
      AppendView(es, key, value);
    case Some(e) =>
      var e' := Entry(if free then key else e.key, value);
      MapReplace(es, key.bytes, e');
      ReplaceAt(es, key.bytes, e');
      forall i | 0 <= i < |es| && es[i].key.bytes == key.bytes ensures es[i] == e {
        LookupIsElement(es, key.bytes, i);
      }
      assert Keys(Replace(es, key.bytes, e')) == if free then WithKey(Keys(es), key) else Keys(es);
  }

  lemma GetSetView(es: seq<Entry>, key: Key, value: nat)
    ensures View(GetSetSpec(es, key, value)) == Next(View(es), DoGetSet(key, value))
  {
    MapLookup(es, key.bytes);
    AppendView(es, key, value);
  }

  lemma DropView(es: seq<Entry>, key: Key)
    ensures View(Drop(es, key.bytes)) == Next(View(es), DoRemove(key))
  {
    MapDrop(es, key.bytes);
    KeysDrop(es, key.bytes);
  }

  // ----- Running commands on the hash map

  lemma EntriesUnique(m: HashMap)
    requires m.Valid()
    ensures UniqueKeys(m.Entries())
  {
    LiveUnique(Cells(m.buckets[..], m.order));
  }

  method Execute(m: HashMap, c: Command) returns (a: Answer)
    requires m.Valid() && (c.DoRemove? ==> m.removable)
    modifies m, m.buckets
    ensures m.Valid() && (m.buckets == old(m.buckets) || fresh(m.buckets))
    ensures View(m.Entries()) == Next(old(View(m.Entries())), c)
    ensures a == Reply(old(View(m.Entries())), c)
  {
    hide View, Lookup, Stored, Replace, Drop, Has, ToMap, Keys, UniqueKeys, Live, TableOk, Linked, Cells, AllLive,
      IsCapacity, Listing, SetSpec, GetSetSpec;
    ghost var es := m.Entries();
    EntriesUnique(m);
    match c
    case DoSet(key, value) =>
      SetView(es, key, value, false);
      m.Set(key, value);
      a := Nothing;
    case DoSetFree(key, value) =>
      SetView(es, key, value, true);
      StoredIsLookup(es, key.bytes);
      var freed := m.SetFree(key, value);
      a := Freed(freed);
    case DoGetSet(key, value) =>
      GetSetView(es, key, value);
      MapAgrees(es, key.bytes);
      var existed, stored := m.GetSet(key, value);
      a := Found(existed, stored);
    case DoGet(key) =>
      MapAgrees(es, key.bytes);
      var present, value := m.Get(key);
      a := Found(present, value);
    case DoRemove(key) =>
      DropView(es, key);
      StoredIsLookup(es, key.bytes);
      var freed := m.Remove(key);
      a := Freed(freed);
    case DoSize =>
      ViewContent(es);
      var n := m.Size();
      a := Number(n);
    case DoIterate =>
      ListingIsEntries(es);
      var visited := m.Iterate();
      a := Visited(visited);
  }

  lemma ViewContent(es: seq<Entry>)
    ensures View(es).content == ToMap(es)
  {
  }

  lemma MapAgrees(es: seq<Entry>, bytes: Bytes)
    ensures match Lookup(es, bytes)
            case Some(e) => bytes in View(es).content && View(es).content[bytes] == e.value
            case None => bytes !in View(es).content
  {
    MapLookup(es, bytes);
  }

  /** Every run from an empty map, for every hash function and in both configurations, answers like the reference. */
  method Run(hash: Bytes -> nat, removable: bool, cs: seq<Command>) returns (answers: seq<Answer>)
    requires forall i :: 0 <= i < |cs| && cs[i].DoRemove? ==> removable
    ensures answers == Replies(Reference(map[], []), cs)
  {
    hide View, Next, Reply, Replies, Live, TableOk, Linked, Cells, AllLive, IsCapacity;
    var m := new HashMap(hash, removable);
    answers := [];
    ghost var state := Reference(map[], []);
    ViewEmpty();
    assert cs[0..] == cs;
    for i := 0 to |cs|
      invariant m.Valid() && m.removable == removable && fresh(m) && fresh(m.buckets)
      invariant View(m.Entries()) == state
      invariant answers + Replies(state, cs[i..]) == Replies(Reference(map[], []), cs)
    {
      RepliesStep(state, cs, i);
      var a := Execute(m, cs[i]);
      answers := answers + [a];
      state := Next(state, cs[i]);
    }
    RepliesEnd(state);
    assert cs[|cs|..] == [];
  }

  lemma ViewEmpty()
    ensures View([]) == Reference(map[], [])
  {
  }

  lemma RepliesStep(s: Reference, cs: seq<Command>, i: nat)
    requires i < |cs|
    ensures Replies(s, cs[i..]) == [Reply(s, cs[i])] + Replies(Next(s, cs[i]), cs[i + 1..])
  {
    hide Reply, Next;
    assert cs[i..][0] == cs[i] && cs[i..][1..] == cs[i + 1..];
  }

  lemma RepliesEnd(s: Reference)
    ensures Replies(s, []) == []
  {
  }
}
