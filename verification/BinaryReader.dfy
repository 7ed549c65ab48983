/**
 What the objects of a binary plist mean: plain unfolding of the object graph, with no memo
 table and no cycle guard, and how deep it has to go.
 */
module BinaryReader {
  import opened Words
  import opened Dictionaries
  import opened Plists
  import opened BinaryFormat

  // ---------------------------------------------------------------------------
  // Plain decoding: unfold the graph, with no memo table and no cycle guard
  // ---------------------------------------------------------------------------

  datatype File = File(bytes: Bytes, offsets: seq<nat>, refSize: nat, doubles: Doubles)

  function ShapeAt(f: File, index: nat): Result<Shape>
    requires f.refSize > 0
  {
    if index >= |f.offsets| || f.offsets[index] >= |f.bytes| then Err(Protocol)
    else ReadShape(f.bytes[f.offsets[index]..], f.refSize, f.doubles)
  }

  /** The value of object `index` when it unfolds within `depth` levels, with no malformed object below it. */
  function Unfold(f: File, index: nat, depth: nat): Option<Plist>
    requires f.refSize > 0
    decreases depth, 0
  {
    if depth == 0 then None
    else
      match ShapeAt(f, index)
      case Err(_) => None
      case Ok(Leaf(value)) => Some(value)
      case Ok(ArrayOf(refs)) => ArrayOption(UnfoldFirst(f, refs, |refs|, depth - 1))
      case Ok(DictionaryOf(keys, values)) =>
        if |keys| != |values| then None
        else DictionaryOption(UnfoldPairs(f, keys, values, |keys|, depth - 1))
  }

  function ArrayOption(items: Option<seq<Plist>>): Option<Plist> {
    if items.Some? then Some(Array(items.value)) else None
  }

  function DictionaryOption(entries: Option<seq<Entry<Plist>>>): Option<Plist> {
    if entries.Some? then Some(Dictionary(entries.value)) else None
  }

  function UnfoldFirst(f: File, refs: seq<nat>, count: nat, depth: nat): Option<seq<Plist>>
    requires f.refSize > 0 && count <= |refs|
    decreases depth, count + 1
  {
    if count == 0 then Some([])
    else
      var items, item := UnfoldFirst(f, refs, count - 1, depth), Unfold(f, refs[count - 1], depth);
      if items.Some? && item.Some? then Some(items.value + [item.value]) else None
  }

  function UnfoldPairs(f: File, keys: seq<nat>, values: seq<nat>, count: nat, depth: nat): Option<seq<Entry<Plist>>>
    requires f.refSize > 0 && count <= |keys| == |values|
    decreases depth, count + 1
  {
    if count == 0 then Some([])
    else
      var entries := UnfoldPairs(f, keys, values, count - 1, depth);
      var key, item := Unfold(f, keys[count - 1], depth), Unfold(f, values[count - 1], depth);
      if entries.Some? && key.Some? && item.Some?
      then Some(Emplace(entries.value, key.value.StringOr(), item.value))
      else None
  }

  /** `index` unfolds to `value` in finitely many levels: it meets no cycle and no malformed object. */
  ghost predicate Unfolds(f: File, index: nat, value: Plist)
    requires f.refSize > 0
  {
    exists n: nat :: Unfold(f, index, n) == Some(value)
  }

  // ---------------------------------------------------------------------------
  // More depth never changes a value
  // ---------------------------------------------------------------------------

  lemma {:induction false} UnfoldMonotone(f: File, index: nat, m: nat, n: nat)
    requires f.refSize > 0 && m <= n && Unfold(f, index, m).Some?
    ensures Unfold(f, index, n) == Unfold(f, index, m)
    decreases m, 0
  {
    hide ShapeAt;
    match ShapeAt(f, index)
    case Err(_) =>
    case Ok(Leaf(_)) =>
    case Ok(ArrayOf(refs)) => UnfoldFirstMonotone(f, refs, |refs|, m - 1, n - 1);
    case Ok(DictionaryOf(keys, values)) => UnfoldPairsMonotone(f, keys, values, |keys|, m - 1, n - 1);
  }

  lemma {:induction false} UnfoldFirstMonotone(f: File, refs: seq<nat>, count: nat, m: nat, n: nat)
    requires f.refSize > 0 && count <= |refs| && m <= n && UnfoldFirst(f, refs, count, m).Some?
    ensures UnfoldFirst(f, refs, count, n) == UnfoldFirst(f, refs, count, m)
    decreases m, count + 1
  {
    hide Unfold;
    if count > 0 {
      UnfoldFirstMonotone(f, refs, count - 1, m, n);
      UnfoldMonotone(f, refs[count - 1], m, n);
    }
  }

  lemma {:induction false} UnfoldPairsMonotone(f: File, keys: seq<nat>, values: seq<nat>, count: nat, m: nat, n: nat)
    requires f.refSize > 0 && count <= |keys| == |values| && m <= n && UnfoldPairs(f, keys, values, count, m).Some?
    ensures UnfoldPairs(f, keys, values, count, n) == UnfoldPairs(f, keys, values, count, m)
    decreases m, count + 1
  {
    hide Unfold, Emplace;
    if count > 0 {
      UnfoldPairsMonotone(f, keys, values, count - 1, m, n);
      UnfoldMonotone(f, keys[count - 1], m, n);
      UnfoldMonotone(f, values[count - 1], m, n);
    }
  }

  /** The value an object unfolds to is unique. */
  lemma UnfoldsUnique(f: File, index: nat, v: Plist, w: Plist)
    requires f.refSize > 0 && Unfolds(f, index, v) && Unfolds(f, index, w)
    ensures v == w
  {
    var m: nat :| Unfold(f, index, m) == Some(v);
    var n: nat :| Unfold(f, index, n) == Some(w);
    if m <= n {
      UnfoldMonotone(f, index, m, n);
    } else {
      UnfoldMonotone(f, index, n, m);
    }
  }

  /** The smallest depth at which an object unfolds. */
  lemma {:induction false} LeastDepth(f: File, index: nat, m: nat) returns (n: nat)
    requires f.refSize > 0 && Unfold(f, index, m).Some?
    ensures 0 < n <= m && Unfold(f, index, n) == Unfold(f, index, m) && Unfold(f, index, n - 1) == None
  {
    hide ShapeAt, UnfoldFirst, UnfoldPairs;
    if Unfold(f, index, m - 1) == None {
      n := m;
    } else {
      UnfoldMonotone(f, index, m - 1, m);
      n := LeastDepth(f, index, m - 1);
    }
  }

  lemma {:induction false} FirstUnfolds(f: File, refs: seq<nat>, count: nat, k: nat, depth: nat)
    requires f.refSize > 0 && k < count <= |refs| && UnfoldFirst(f, refs, count, depth).Some?
    ensures Unfold(f, refs[k], depth).Some?
    decreases count
  {
    if k < count - 1 {
      FirstUnfolds(f, refs, count - 1, k, depth);
    }
  }

  lemma {:induction false} PairsUnfold(f: File, keys: seq<nat>, values: seq<nat>, count: nat, k: nat, depth: nat)
    requires f.refSize > 0 && k < count <= |keys| == |values| && UnfoldPairs(f, keys, values, count, depth).Some?
    ensures Unfold(f, keys[k], depth).Some? && Unfold(f, values[k], depth).Some?
    decreases count
  {
    hide Unfold;
    if k < count - 1 {
      PairsUnfold(f, keys, values, count - 1, k, depth);
    }
  }

  // ---------------------------------------------------------------------------
  // An object that unfolds at all unfolds within as many levels as there are objects
  // ---------------------------------------------------------------------------

  lemma {:induction false} StuckReference(f: File, refs: seq<nat>, count: nat, depth: nat) returns (child: nat)
    requires f.refSize > 0 && count <= |refs|
    requires UnfoldFirst(f, refs, count, depth + 1).Some? && UnfoldFirst(f, refs, count, depth) == None
    ensures Unfold(f, child, depth + 1).Some? && Unfold(f, child, depth) == None
    decreases count
  {
    hide Unfold;
    if Unfold(f, refs[count - 1], depth) == None {
      child := refs[count - 1];
    } else {
      child := StuckReference(f, refs, count - 1, depth);
    }
  }

  lemma {:induction false} StuckPair(f: File, keys: seq<nat>, values: seq<nat>, count: nat, depth: nat)
    returns (child: nat)
    requires f.refSize > 0 && count <= |keys| == |values|
    requires UnfoldPairs(f, keys, values, count, depth + 1).Some? && UnfoldPairs(f, keys, values, count, depth) == None
    ensures Unfold(f, child, depth + 1).Some? && Unfold(f, child, depth) == None
    decreases count
  {
    hide Unfold;
    if Unfold(f, keys[count - 1], depth) == None {
      child := keys[count - 1];
    } else if Unfold(f, values[count - 1], depth) == None {
      child := values[count - 1];
    } else {
      child := StuckPair(f, keys, values, count - 1, depth);
    }
  }

  lemma StuckChild(f: File, index: nat, n: nat) returns (child: nat)
    requires f.refSize > 0 && Unfold(f, index, n + 2).Some? && Unfold(f, index, n + 1) == None
    ensures Unfold(f, child, n + 1).Some? && Unfold(f, child, n) == None
  {
    hide ShapeAt;
    match ShapeAt(f, index)
    case Ok(ArrayOf(refs)) => child := StuckReference(f, refs, |refs|, n);
    case Ok(DictionaryOf(keys, values)) => child := StuckPair(f, keys, values, |keys|, n);
  }

  lemma UnfoldInTable(f: File, index: nat, n: nat)
    requires f.refSize > 0 && Unfold(f, index, n).Some?
    ensures index < |f.offsets|
  {
  }

  /** An object of least depth `n` has `n` different objects at or below it. */
  lemma {:induction false} Chain(f: File, index: nat, n: nat) returns (chain: set<nat>)
    requires f.refSize > 0 && n > 0 && Unfold(f, index, n).Some? && Unfold(f, index, n - 1) == None
    ensures |chain| == n
    ensures forall i | i in chain :: i < |f.offsets| && Unfold(f, i, n).Some?
    decreases n
  {
    hide ShapeAt;
    UnfoldInTable(f, index, n);
    if n == 1 {
      chain := {index};
    } else {
      var child := StuckChild(f, index, n - 2);
      var below := Chain(f, child, n - 1);
      forall i | i in below ensures Unfold(f, i, n).Some? {
        UnfoldMonotone(f, i, n - 1, n);
      }
      assert index !in below;
      chain := below + {index};
    }
  }

  lemma {:induction false} RangeBound(s: set<nat>, n: nat)
    requires forall i | i in s :: i < n
    ensures |s| <= n
  {
    if n > 0 {
      RangeBound(s - {n - 1}, n - 1);
    } else {
      assert s == {};
    }
  }

  /** Finite unfolding is decided by unfolding one level per object of the table. */
  lemma UnfoldsWithinTable(f: File, index: nat, value: Plist)
    requires f.refSize > 0
    ensures Unfolds(f, index, value) <==> Unfold(f, index, |f.offsets|) == Some(value)
  {
    if Unfolds(f, index, value) {
      var m: nat :| Unfold(f, index, m) == Some(value);
      var n := LeastDepth(f, index, m);
      var chain := Chain(f, index, n);
      RangeBound(chain, |f.offsets|);
      UnfoldMonotone(f, index, n, |f.offsets|);
    }
  }
}
