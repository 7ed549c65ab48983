/**
 The sorted string-keyed map behind every dictionary: `std::map<std::string, T>`
 as a sequence of entries whose keys strictly increase in byte order.
 */
module Dictionaries {
  import opened Words

  datatype Entry<+T> = Entry(key: Bytes, value: T)

  /** Byte-wise lexicographic order, the order of `std::less<std::string>`. */
  predicate Less(a: Bytes, b: Bytes) {
    b != [] && (a == [] || a[0] < b[0] || (a[0] == b[0] && Less(a[1..], b[1..])))
  }

  /** The first `k` bytes agree, and then `a` ends or has the smaller byte. */
  predicate PartsAt(a: Bytes, b: Bytes, k: nat) {
    k <= |a| && k < |b| && a[..k] == b[..k] && (k == |a| || a[k] < b[k])
  }

  lemma {:induction false} LessIs(a: Bytes, b: Bytes)
    ensures Less(a, b) <==> exists k: nat :: PartsAt(a, b, k)
  {
    if a != [] && b != [] && a[0] == b[0] {
      LessIs(a[1..], b[1..]);
      forall k: nat
        ensures PartsAt(a[1..], b[1..], k) <==> PartsAt(a, b, k + 1)
      {
        OneFurther(a, b, k);
      }
      assert !PartsAt(a, b, 0);
      if k: nat :| PartsAt(a, b, k) {
        assert PartsAt(a[1..], b[1..], k - 1);
      }
    } else {
      NothingShared(a, b);
    }
  }

  lemma OneFurther(a: Bytes, b: Bytes, k: nat)
    requires a != [] && b != [] && a[0] == b[0]
    ensures PartsAt(a[1..], b[1..], k) <==> PartsAt(a, b, k + 1)
  {
    if k + 1 <= |a| && k + 1 <= |b| {
      assert a[..k + 1] == [a[0]] + a[1..][..k] && b[..k + 1] == [b[0]] + b[1..][..k];
      assert a[1..][..k] == a[..k + 1][1..] && b[1..][..k] == b[..k + 1][1..];
    }
  }

  lemma NothingShared(a: Bytes, b: Bytes)
    requires a == [] || b == [] || a[0] != b[0]
    ensures forall k: nat :: PartsAt(a, b, k) ==> k == 0
    ensures PartsAt(a, b, 0) <==> b != [] && (a == [] || a[0] < b[0])
  {
    forall k: nat | k > 0
      ensures !PartsAt(a, b, k)
    {
      if k <= |a| && k <= |b| {
        assert a[..k][0] == a[0] && b[..k][0] == b[0];
      }
    }
  }

  predicate Sorted<T>(entries: seq<Entry<T>>) {
    forall i, j | 0 <= i < j < |entries| :: Less(entries[i].key, entries[j].key)
  }

  /** `std::map::emplace`: keeps the present value when the key is already there. */
  function Emplace<T>(entries: seq<Entry<T>>, key: Bytes, value: T): seq<Entry<T>> {
    if entries == [] then [Entry(key, value)]
    else if Less(key, entries[0].key) then [Entry(key, value)] + entries
    else if key == entries[0].key then entries
    else [entries[0]] + Emplace(entries[1..], key, value)
  }

  /** `std::map::find`. */
  function Find<T>(entries: seq<Entry<T>>, key: Bytes): Option<T> {
    if entries == [] then None
    else if entries[0].key == key then Some(entries[0].value)
    else Find(entries[1..], key)
  }

  lemma {:induction false} LessIsTransitive(a: Bytes, b: Bytes, c: Bytes)
    requires Less(a, b) && Less(b, c)
    ensures Less(a, c)
  {
    if a != [] && a[0] == b[0] && b[0] == c[0] {
      LessIsTransitive(a[1..], b[1..], c[1..]);
    }
  }

  lemma {:induction false} LessIsTotal(a: Bytes, b: Bytes)
    ensures Less(a, b) || a == b || Less(b, a)
  {
    if a != [] && b != [] && a[0] == b[0] {
      LessIsTotal(a[1..], b[1..]);
      assert a == [a[0]] + a[1..] && b == [b[0]] + b[1..];
    }
  }

  lemma {:induction false} LessIsIrreflexive(a: Bytes)
    ensures !Less(a, a)
  {
    if a != [] {
      LessIsIrreflexive(a[1..]);
    }
  }

  /** Every present entry stays, and every other entry is the new one. */
  lemma {:induction false} EmplaceRetains<T>(entries: seq<Entry<T>>, key: Bytes, value: T)
    ensures var r := Emplace(entries, key, value);
            && |entries| <= |r| <= |entries| + 1
            && (forall e | e in entries :: e in r)
            && forall i | 0 <= i < |r| :: r[i] in entries || r[i] == Entry(key, value)
  {
    hide Less;
    if entries != [] && !Less(key, entries[0].key) && key != entries[0].key {
      EmplaceRetains(entries[1..], key, value);
      assert entries == [entries[0]] + entries[1..];
    }
  }

  /** Emplacing keeps the order, adds at most the one key and changes no value. */
  lemma {:induction false} EmplaceKeepsOrder<T>(entries: seq<Entry<T>>, key: Bytes, value: T)
    requires Sorted(entries)
    ensures var r := Emplace(entries, key, value);
            && Sorted(r)
            && |entries| <= |r| <= |entries| + 1
            && (forall e | e in entries :: e in r)
            && forall i | 0 <= i < |r| :: r[i] in entries || r[i] == Entry(key, value)
  {
    hide Less;
    EmplaceRetains(entries, key, value);
    if entries != [] && !Less(key, entries[0].key) && key != entries[0].key {
      LessIsTotal(key, entries[0].key);
      EmplaceRetains(entries[1..], key, value);
      EmplaceKeepsOrder(entries[1..], key, value);
      var rest := Emplace(entries[1..], key, value);
      forall i | 0 <= i < |rest| ensures Less(entries[0].key, rest[i].key) {
        if rest[i] != Entry(key, value) {
          assert rest[i] in entries[1..];
        }
      }
    } else if entries != [] && Less(key, entries[0].key) {
      forall i | 0 <= i < |entries| ensures Less(key, entries[i].key) {
        if i > 0 {
          LessIsTransitive(key, entries[0].key, entries[i].key);
        }
      }
    }
  }

  /** Emplacing a key above every present one appends it. */
  lemma {:induction false} EmplaceAppends<T>(entries: seq<Entry<T>>, key: Bytes, value: T)
    requires forall i | 0 <= i < |entries| :: Less(entries[i].key, key)
    ensures Emplace(entries, key, value) == entries + [Entry(key, value)]
  {
    if entries != [] {
      assert !Less(key, entries[0].key) && key != entries[0].key by {
        LessIsIrreflexive(key);
        if Less(key, entries[0].key) {
          LessIsTransitive(key, entries[0].key, key);
        }
      }
      EmplaceAppends(entries[1..], key, value);
      assert entries == [entries[0]] + entries[1..];
    }
  }

  /** Finding a key that no earlier entry has. */
  lemma {:induction false} FindAt<T>(entries: seq<Entry<T>>, i: nat)
    requires i < |entries| && forall j | 0 <= j < i :: entries[j].key != entries[i].key
    ensures Find(entries, entries[i].key) == Some(entries[i].value)
    decreases i
  {
    if i > 0 {
      assert entries[0].key != entries[i].key;
      FindAt(entries[1..], i - 1);
    }
  }

  lemma {:induction false} FindNone<T>(entries: seq<Entry<T>>, key: Bytes)
    requires forall i | 0 <= i < |entries| :: entries[i].key != key
    ensures Find(entries, key) == None
  {
    if entries != [] {
      FindNone(entries[1..], key);
    }
  }

  /** Two keys are ordered by the first byte in which they differ. */
  lemma {:induction false} LessAt(a: Bytes, b: Bytes, i: nat)
    requires i < |a| && i < |b| && a[..i] == b[..i] && a[i] < b[i]
    ensures Less(a, b) && !Less(b, a) && a != b
    decreases i
  {
    if i > 0 {
      assert a[..i][0] == a[0] && b[..i][0] == b[0];
      assert a[1..][..i - 1] == a[..i][1..] && b[1..][..i - 1] == b[..i][1..];
      LessAt(a[1..], b[1..], i - 1);
    }
  }

  /** A map built by emplacing two or three keys in ascending order. */
  lemma EmplaceTwo<T>(a: Entry<T>, b: Entry<T>)
    requires Less(a.key, b.key)
    ensures Emplace(Emplace([], a.key, a.value), b.key, b.value) == [a, b]
  {
    hide Less, Emplace;
    EmplaceAppends([], a.key, a.value);
    assert [] + [a] == [a];
    EmplaceAppends([a], b.key, b.value);
  }

  lemma EmplaceThree<T>(a: Entry<T>, b: Entry<T>, c: Entry<T>)
    requires Less(a.key, b.key) && Less(b.key, c.key) && Less(a.key, c.key)
    ensures Emplace(Emplace(Emplace([], a.key, a.value), b.key, b.value), c.key, c.value) == [a, b, c]
  {
    hide Less, Emplace;
    EmplaceTwo(a, b);
    EmplaceAppends([a, b], c.key, c.value);
    assert [a, b] + [c] == [a, b, c];
  }
}
