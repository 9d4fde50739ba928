/**
 The cache itself: a list of elements and a map from keys to the same elements,
 changed together.  `Recency` gives the meaning of every call.
 */
module Cache {
  import opened Wrappers
  import R = Recency

  // The element of the list; its entry is updated in place.
  class Element<K, V> {
    const key: K
    var value: V
    var expiresAt: Option<int>

    constructor (key: K, value: V, expiresAt: Option<int>)
      ensures this.key == key && this.value == value && this.expiresAt == expiresAt
    {
      this.key, this.value, this.expiresAt := key, value, expiresAt;
    }

    ghost function Content(): R.Entry<K, V>
      reads this
    {
      R.Entry(key, value, expiresAt)
    }
  }

  // The list without one of its elements.
  function Unlink<K, V>(ll: seq<Element<K, V>>, el: Element<K, V>): seq<Element<K, V>> {
    if ll == [] then [] else if ll[0] == el then ll[1..] else [ll[0]] + Unlink(ll[1..], el)
  }

  ghost function Contents<K, V>(ll: seq<Element<K, V>>): seq<R.Entry<K, V>>
    reads ll
  {
    if ll == [] then [] else [ll[0].Content()] + Contents(ll[1..])
  }

  ghost predicate Absent<K, V>(ll: seq<Element<K, V>>, key: K) {
    forall el | el in ll :: el.key != key
  }

  ghost predicate UniqueKeys<K, V>(ll: seq<Element<K, V>>) {
    ll == [] || (Absent(ll[1..], ll[0].key) && UniqueKeys(ll[1..]))
  }

  // The map holds exactly the elements of the list, each under its key.
  ghost predicate Indexed<K, V>(ll: seq<Element<K, V>>, items: map<K, Element<K, V>>) {
    && (forall k | k in items :: items[k] in ll && items[k].key == k)
    && (forall el | el in ll :: el.key in items && items[el.key] == el)
  }

  lemma {:induction false} ContentsAt<K, V>(ll: seq<Element<K, V>>)
    ensures |Contents(ll)| == |ll|
    ensures forall i | 0 <= i < |ll| :: Contents(ll)[i] == ll[i].Content()
  {
    if ll != [] {
      ContentsAt(ll[1..]);
      assert forall i | 1 <= i < |ll| :: Contents(ll)[i] == Contents(ll[1..])[i - 1];
    }
  }

  lemma {:induction false} FindInList<K, V>(ll: seq<Element<K, V>>, items: map<K, Element<K, V>>, key: K)
    requires UniqueKeys(ll)
    requires forall el | el in ll :: el.key in items && items[el.key] == el
    requires key in items ==> items[key].key == key
    ensures R.Find(Contents(ll), key) ==
            if key in items && items[key] in ll then Some(items[key].Content()) else None
  {
    if ll != [] {
      FindInList(ll[1..], items, key);
      assert Contents(ll)[1..] == Contents(ll[1..]);
    }
  }

  lemma {:induction false} NotInList<K, V>(ll: seq<Element<K, V>>, key: K)
    requires Absent(ll, key)
    ensures R.Without(Contents(ll), key) == Contents(ll)
  {
    if ll != [] {
      NotInList(ll[1..], key);
      assert Contents(ll)[1..] == Contents(ll[1..]);
    }
  }

  lemma {:induction false} UnlinkElements<K, V>(ll: seq<Element<K, V>>, el: Element<K, V>)
    requires UniqueKeys(ll) && el in ll
    ensures forall x :: x in Unlink(ll, el) <==> x in ll && x != el
    ensures |Unlink(ll, el)| == |ll| - 1
    ensures UniqueKeys(Unlink(ll, el)) && Absent(Unlink(ll, el), el.key)
  {
    assert ll == [ll[0]] + ll[1..];
    if ll[0] != el {
      UnlinkElements(ll[1..], el);
      assert Unlink(ll, el)[1..] == Unlink(ll[1..], el);
      assert Absent(Unlink(ll[1..], el), ll[0].key);
    }
  }

  lemma {:induction false} UnlinkIsWithout<K, V>(ll: seq<Element<K, V>>, el: Element<K, V>)
    requires UniqueKeys(ll) && el in ll
    ensures Contents(Unlink(ll, el)) == R.Without(Contents(ll), el.key)
  {
    assert Contents(ll)[1..] == Contents(ll[1..]);
    if ll[0] == el {
      NotInList(ll[1..], el.key);
    } else {
      UnlinkIsWithout(ll[1..], el);
      assert Unlink(ll, el)[1..] == Unlink(ll[1..], el);
    }
  }

  lemma {:induction false} UnlinkLast<K, V>(ll: seq<Element<K, V>>)
    requires UniqueKeys(ll) && ll != []
    ensures Unlink(ll, ll[|ll| - 1]) == ll[..|ll| - 1]
  {
    if |ll| > 1 {
      var rest := ll[1..];
      assert ll[|ll| - 1] in rest;
      UnlinkLast(rest);
      assert ll[..|ll| - 1] == [ll[0]] + rest[..|rest| - 1];
    }
  }

  lemma ContentsButLast<K, V>(ll: seq<Element<K, V>>)
    requires ll != []
    ensures |Contents(ll)| == |ll|
    ensures Contents(ll[..|ll| - 1]) == Contents(ll)[..|ll| - 1]
  {
    ContentsAt(ll);
    ContentsAt(ll[..|ll| - 1]);
  }

  class LRU<K(==), V> {
    const capacity: int
    const ttl: int
    var ll: seq<Element<K, V>>
    var items: map<K, Element<K, V>>

    ghost predicate Coherent()
      reads this
    {
      UniqueKeys(ll) && Indexed(ll, items)
    }

    ghost predicate Valid()
      reads this
    {
      Coherent() && |ll| <= Max(capacity, 0)
    }

    // The entries, most recently used first.
    ghost function View(): seq<R.Entry<K, V>>
      reads this, ll
    {
      Contents(ll)
    }

    constructor (capacity: int, ttl: int)
      ensures Valid() && View() == [] && fresh(ll)
      ensures this.capacity == capacity && this.ttl == ttl
    {
      this.capacity, this.ttl := capacity, ttl;
      ll, items := [], map[];
    }

    // Drops one element from the list and from the map.
    method RemoveElement(el: Element<K, V>)
      requires Coherent() && el in ll
      modifies this
      ensures Coherent() && View() == R.Without(old(View()), el.key)
      ensures ll == Unlink(old(ll), el) && items == old(items) - {el.key}
      ensures |ll| == |old(ll)| - 1 && forall x | x in ll :: x in old(ll)
    {
      UnlinkElements(ll, el);
      UnlinkIsWithout(ll, el);
      ll := Unlink(ll, el);
      items := items - {el.key};
    }

    // Moves one element to the front of the list.
    method MoveToFront(el: Element<K, V>)
      requires Valid() && el in ll
      modifies this
      ensures Valid() && items == old(items)
      ensures ll == [el] + Unlink(old(ll), el)
      ensures View() == [el.Content()] + R.Without(old(View()), el.key)
    {
      UnlinkElements(ll, el);
      UnlinkIsWithout(ll, el);
      ll := [el] + Unlink(ll, el);
      assert ll[1..] == Unlink(old(ll), el);
    }

    method Get(now: int, key: K) returns (hit: Option<V>)
      requires Valid()
      modifies this
      ensures Valid() && forall el | el in ll :: el in old(ll) || fresh(el)
      ensures (View(), hit) == R.Step(capacity, ttl, old(View()), R.Get(now, key))
      ensures hit.Some? ==> View() != [] && View()[0].key == key && View()[0].value == hit.value
    {
      FindInList(ll, items, key);
      if capacity <= 0 || key !in items {
        return None;
      }
      var el := items[key];
      if el.expiresAt.Some? && now > el.expiresAt.value {
        RemoveElement(el);
        return None;
      }
      UnlinkElements(ll, el);
      MoveToFront(el);
      return Some(el.value);
    }

    method Set(now: int, key: K, value: V)
      requires Valid()
      modifies this, ll
      ensures Valid() && forall el | el in ll :: el in old(ll) || fresh(el)
      ensures View() == R.Step(capacity, ttl, old(View()), R.Set(now, key, value)).0
      ensures capacity > 0 ==> View() != [] && View()[0].key == key && View()[0].value == value
    {
      if capacity <= 0 {
        return;
      }
      FindInList(ll, items, key);
      var expiresAt := if ttl > 0 then Some(now + ttl) else None;
      if key in items {
        Refresh(items[key], value, expiresAt);
      } else {
        Insert(key, value, expiresAt);
      }
    }

    // Inserts a new key and evicts the least recently used one when the list is over capacity.
    method Insert(key: K, value: V, expiresAt: Option<int>)
      requires Valid() && capacity > 0 && key !in items
      modifies this
      ensures Valid() && forall el | el in ll :: el in old(ll) || fresh(el)
      ensures View() == R.Evict(capacity, [R.Entry(key, value, expiresAt)] + R.Without(old(View()), key))
    {
      NotInList(ll, key);
      PushFront(key, value, expiresAt);
      ContentsAt(ll);
      if |ll| > capacity {
        RemoveBack();
      }
    }

    method RemoveBack()
      requires Coherent() && ll != []
      modifies this
      ensures Coherent() && |old(View())| == |old(ll)|
      ensures ll == old(ll)[..|old(ll)| - 1] && View() == old(View())[..|old(ll)| - 1]
    {
      UnlinkLast(ll);
      ContentsButLast(ll);
      RemoveElement(ll[|ll| - 1]);
    }

    // Rewrites the entry of a known key in place and moves it to the front.
    method Refresh(el: Element<K, V>, value: V, expiresAt: Option<int>)
      requires Valid() && el in ll
      modifies this, el
      ensures Valid() && forall x | x in ll :: x in old(ll)
      ensures View() == [R.Entry(el.key, value, expiresAt)] + R.Without(old(View()), el.key)
    {
      UnlinkElements(ll, el);
      UnlinkIsWithout(ll, el);
      ghost var others := Contents(Unlink(ll, el));
      el.value, el.expiresAt := value, expiresAt;
      assert Contents(Unlink(ll, el)) == others;
      UnlinkIsWithout(ll, el);
      MoveToFront(el);
    }

    // Puts a new key in front of the list and into the map.
    method PushFront(key: K, value: V, expiresAt: Option<int>)
      requires Coherent() && key !in items
      modifies this
      ensures Coherent() && |ll| == |old(ll)| + 1 && forall el | el in ll :: el in old(ll) || fresh(el)
      ensures View() == [R.Entry(key, value, expiresAt)] + old(View())
    {
      var el := new Element(key, value, expiresAt);
      ll := [el] + ll;
      assert ll[1..] == old(ll);
      items := items[key := el];
    }

    method Delete(key: K)
      requires Valid()
      modifies this
      ensures Valid() && forall el | el in ll :: el in old(ll) || fresh(el)
      ensures View() == R.Step(capacity, ttl, old(View()), R.Delete(key)).0
    {
      if capacity <= 0 {
        return;
      }
      if key in items {
        UnlinkElements(ll, items[key]);
        RemoveElement(items[key]);
      } else {
        NotInList(ll, key);
      }
    }

    method Purge()
      modifies this
      ensures Valid() && View() == [] && ll == []
    {
      ll, items := [], map[];
    }

    method Len() returns (n: nat)
      requires Valid()
      ensures n == |View()| == |items|
    {
      ContentsAt(ll);
      IndexSize(ll, items);
      n := |ll|;
    }
  }

  // List and map have the same number of elements.
  lemma {:induction false} IndexSize<K, V>(ll: seq<Element<K, V>>, items: map<K, Element<K, V>>)
    requires UniqueKeys(ll) && Indexed(ll, items)
    ensures |items| == |ll|
  {
    if ll == [] {
      assert items == map[];
    } else {
      var rest, key := ll[1..], ll[0].key;
      assert ll == [ll[0]] + rest;
      IndexSize(rest, items - {key});
      assert items.Keys == (items - {key}).Keys + {key};
    }
  }
}
