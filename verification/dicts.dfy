/**
  Dict: a string-keyed map of value cells with one flag, `hasNonPodData`,
  that lets bulk copies and clean-ups skip the per-cell work when every cell
  is plain old data.

  The central invariant (FlagInvariant) is: when the flag is false, every
  stored cell is POD. Every operation below preserves it, and it is exactly
  what makes the skipped clean-ups of `clearVal`, `reset` and the destructor
  safe: under it, those operations leave the heap outside the dictionary as
  it was (Framed), so no box leaks and none is freed twice.
*/
module Dicts {
  import opened Cells

  type Data = map<string, Cell>

  datatype Dict = Dict(data: Data, hasNonPodData: bool)

  /** The default-constructed dictionary. */
  const EmptyDict: Dict := Dict(map[], false)

  /** getVal's outcome: the stored cell, or the KeyErrorException it throws. */
  datatype Result<T> = Ok(value: T) | KeyError(key: string)

  /** A dictionary together with the heap after an operation. */
  datatype Step = Step(dict: Dict, heap: Heap)

  /** After a move: the receiving dictionary, the moved-from one, the heap. */
  datatype MoveStep = MoveStep(target: Dict, source: Dict, heap: Heap)

  // ---------------------------------------------------------------------
  // Ownership

  /** Flag false means no stored cell owns heap memory. */
  ghost predicate FlagInvariant(d: Dict) {
    !d.hasNonPodData ==> forall k :: k in d.data ==> IsPod(d.data[k])
  }

  /** The boxes a map of cells refers to. */
  function Boxes(m: Data): set<BoxId> {
    set k | k in m && m[k].Boxed? :: m[k].id
  }

  /** No two keys share a box. */
  ghost predicate UniqueBoxes(m: Data) {
    forall k1, k2 :: k1 in m && k2 in m && m[k1].Boxed? && m[k2].Boxed? && m[k1].id == m[k2].id ==> k1 == k2
  }

  /** The map exclusively owns live boxes of a well-formed heap. */
  ghost predicate Owns(m: Data, h: Heap) {
    h.Valid() && UniqueBoxes(m) && Boxes(m) <= h.live
  }

  /** The class invariant of a reachable dictionary. */
  ghost predicate Valid(d: Dict, h: Heap) {
    FlagInvariant(d) && Owns(d.data, h)
  }

  /**
    The part of the heap that `m` does not own is the same before and after:
    a box the map dropped was freed, a box it gained is new, nothing else moved.
  */
  ghost predicate Framed(m: Data, h: Heap, m': Data, h': Heap) {
    h'.live - Boxes(m') == h.live - Boxes(m)
  }

  /** An unflagged dictionary owns no box: the fact every skipped clean-up rests on. */
  lemma UnflaggedOwnsNothing(d: Dict)
    requires FlagInvariant(d)
    ensures !d.hasNonPodData ==> Boxes(d.data) == {}
  {
  }

  lemma {:induction false} BoxesPut(m: Data, key: string, c: Cell)
    requires UniqueBoxes(m)
    ensures Boxes(m[key := c]) == (Boxes(m) - (if key in m then BoxOf(m[key]) else {})) + BoxOf(c)
    ensures BoxOf(c) !! Boxes(m) ==> UniqueBoxes(m[key := c])
  {
    var m' := m[key := c];
    var lhs := Boxes(m');
    var rhs := (Boxes(m) - (if key in m then BoxOf(m[key]) else {})) + BoxOf(c);
    forall id | id in lhs ensures id in rhs {
      var j :| j in m' && m'[j].Boxed? && m'[j].id == id;
      if j != key {
        assert m[j] == m'[j];
        assert id in Boxes(m);
        assert key in m && m[key].Boxed? ==> m[key].id != id;
      }
    }
    forall id | id in rhs ensures id in lhs {
      if id in BoxOf(c) {
        assert m'[key] == c;
      } else {
        var j :| j in m && m[j].Boxed? && m[j].id == id;
        assert j != key;
        assert m'[j] == m[j];
      }
    }
  }

  lemma {:induction false} BoxesRemove(m: Data, key: string)
    requires UniqueBoxes(m)
    ensures Boxes(m - {key}) == Boxes(m) - (if key in m then BoxOf(m[key]) else {})
    ensures UniqueBoxes(m - {key})
  {
    var m' := m - {key};
    forall id | id in Boxes(m) - (if key in m then BoxOf(m[key]) else {}) ensures id in Boxes(m') {
      var j :| j in m && m[j].Boxed? && m[j].id == id;
      assert j != key;
      assert m'[j] == m[j];
    }
  }

  lemma {:induction false} BoxesUnion(a: Data, b: Data)
    requires a.Keys !! b.Keys
    ensures Boxes(a + b) == Boxes(a) + Boxes(b)
    ensures UniqueBoxes(a) && UniqueBoxes(b) && Boxes(a) !! Boxes(b) ==> UniqueBoxes(a + b)
  {
    var u := a + b;
    forall id | id in Boxes(u) ensures id in Boxes(a) + Boxes(b) {
      var j :| j in u && u[j].Boxed? && u[j].id == id;
      if j in b { assert u[j] == b[j]; } else { assert u[j] == a[j]; }
    }
    forall id | id in Boxes(a) + Boxes(b) ensures id in Boxes(u) {
      if id in Boxes(b) {
        var j :| j in b && b[j].Boxed? && b[j].id == id;
        assert u[j] == b[j];
      } else {
        var j :| j in a && a[j].Boxed? && a[j].id == id;
        assert u[j] == a[j];
      }
    }
    if UniqueBoxes(a) && UniqueBoxes(b) && Boxes(a) !! Boxes(b) {
      forall k1, k2 | k1 in u && k2 in u && u[k1].Boxed? && u[k2].Boxed? && u[k1].id == u[k2].id
        ensures k1 == k2
      {
        if k1 in b { assert u[k1].id in Boxes(b); } else { assert u[k1].id in Boxes(a); }
        if k2 in b { assert u[k2].id in Boxes(b); } else { assert u[k2].id in Boxes(a); }
      }
    }
  }

  // ---------------------------------------------------------------------
  // Deep copies of many cells at once

  /**
    The deep copies of the cells of `src` at the keys `base` lacks, placed in
    the fresh block that starts at `at` (see Cells.Relocate).
  */
  function Missing(base: Data, src: Data, at: BoxId): (r: Data)
    ensures r.Keys == src.Keys - base.Keys
    ensures forall k :: k in r ==> ValueOf(r[k]) == ValueOf(src[k])
  {
    map k | k in src && k !in base :: Relocate(src[k], at)
  }

  /** The deep copies of every cell of `src`. */
  function CopyAll(src: Data, at: BoxId): (r: Data)
    ensures r.Keys == src.Keys
    ensures forall k :: k in r ==> ValueOf(r[k]) == ValueOf(src[k])
  {
    Missing(map[], src, at)
  }

  /**
    Copies made from a map owned in `h` are fresh, distinct, owned by nobody
    yet, and lie below the watermark of the grown heap.
  */
  lemma {:induction false} CopiesAreFresh(base: Data, src: Data, h: Heap)
    requires Owns(src, h)
    ensures Boxes(Missing(base, src, h.next)) !! h.live
    ensures UniqueBoxes(Missing(base, src, h.next))
    ensures Boxes(Missing(base, src, h.next)) <= Boxes(CopyAll(src, h.next))
    ensures forall id :: id in Boxes(CopyAll(src, h.next)) ==> h.next <= id < h.next + h.next
  {
    var r := Missing(base, src, h.next);
    var all := CopyAll(src, h.next);
    forall id | id in Boxes(all) ensures h.next <= id < h.next + h.next {
      var j :| j in all && all[j].Boxed? && all[j].id == id;
      assert src[j].Boxed? && src[j].id in Boxes(src);
    }
    forall id | id in Boxes(r) ensures id in Boxes(all) {
      var j :| j in r && r[j].Boxed? && r[j].id == id;
      assert all[j] == r[j];
    }
    forall k1, k2 | k1 in r && k2 in r && r[k1].Boxed? && r[k2].Boxed? && r[k1].id == r[k2].id
      ensures k1 == k2
    {
      assert src[k1].id == src[k2].id;
    }
  }

  // ---------------------------------------------------------------------
  // Lookups

  /** hasVal */
  function HasVal(d: Dict, key: string): (r: bool)
    ensures r <==> GetVal(d, key).Ok?
  {
    key in d.data
  }

  /**
    getVal: the stored cell (from which from_rdvalue extracts the typed
    value), or the KeyErrorException thrown for an absent key.
  */
  function GetVal(d: Dict, key: string): (r: Result<Cell>)
    ensures r.Ok? <==> key in d.data
    ensures r.Ok? ==> r.value == d.data[key]
    ensures r.KeyError? ==> r.key == key
  {
    if key in d.data then Ok(d.data[key]) else KeyError(key)
  }

  /**
    getValIfPresent: returns whether the key is present, and the caller's
    result variable, assigned from the stored cell only when it is.
  */
  function GetValIfPresent(d: Dict, key: string, res: Cell): (r: (bool, Cell))
    ensures r.0 <==> HasVal(d, key)
    ensures r.0 ==> GetVal(d, key) == Ok(r.1)
    ensures !r.0 ==> r.1 == res && GetVal(d, key) == KeyError(key)
  {
    if key in d.data then (true, d.data[key]) else (false, res)
  }

  /** Strict lexicographic order of std::string keys, character by character. */
  predicate KeyLess(a: string, b: string) {
    if |a| == 0 then |b| > 0
    else if |b| == 0 then false
    else a[0] < b[0] || (a[0] == b[0] && KeyLess(a[1..], b[1..]))
  }

  lemma {:induction false} KeyLessIrreflexive(a: string)
    ensures !KeyLess(a, a)
  {
    if |a| > 0 {
      KeyLessIrreflexive(a[1..]);
    }
  }

  lemma {:induction false} KeyLessTotal(a: string, b: string)
    requires a != b
    ensures KeyLess(a, b) || KeyLess(b, a)
  {
    if |a| > 0 && |b| > 0 && a[0] == b[0] {
      assert a == [a[0]] + a[1..] && b == [b[0]] + b[1..];
      KeyLessTotal(a[1..], b[1..]);
    }
  }

  lemma {:induction false} KeyLessTransitive(a: string, b: string, c: string)
    requires KeyLess(a, b) && KeyLess(b, c)
    ensures KeyLess(a, c)
  {
    if |a| > 0 && |b| > 0 && |c| > 0 && a[0] == b[0] == c[0] {
      KeyLessTransitive(a[1..], b[1..], c[1..]);
    }
  }

  ghost predicate StrictlyAscending(s: seq<string>) {
    forall i, j :: 0 <= i < j < |s| ==> KeyLess(s[i], s[j])
  }

  /** Inserts a new key into an ascending key list at its place. */
  function InsertKey(s: seq<string>, key: string): (r: seq<string>)
    requires StrictlyAscending(s) && key !in s
    ensures StrictlyAscending(r)
    ensures forall x :: x in r <==> x in s || x == key
    ensures |r| == |s| + 1
  {
    if |s| == 0 then [key]
    else if KeyLess(key, s[0]) then
      assert forall j :: 0 < j < |s| ==> KeyLess(key, s[j]) by {
        forall j | 0 < j < |s| ensures KeyLess(key, s[j]) {
          KeyLessTransitive(key, s[0], s[j]);
        }
      }
      [key] + s
    else
      KeyLessTotal(key, s[0]);
      var t := InsertKey(s[1..], key);
      assert forall j :: 0 <= j < |t| ==> KeyLess(s[0], t[j]) by {
        forall j | 0 <= j < |t| ensures KeyLess(s[0], t[j]) {
          assert t[j] in t;
        }
      }
      [s[0]] + t
  }

  /** keys(): every present key exactly once, in ascending order. */
  method Keys(d: Dict) returns (ks: seq<string>)
    ensures forall k :: k in ks <==> k in d.data
    ensures forall i, j :: 0 <= i < j < |ks| ==> KeyLess(ks[i], ks[j])
    ensures |ks| == |d.data|
  {
    ks := [];
    var rest := d.data.Keys;
    while rest != {}
      invariant rest <= d.data.Keys
      invariant forall k :: k in ks <==> k in d.data && k !in rest
      invariant StrictlyAscending(ks)
      invariant |ks| + |rest| == |d.data|
      decreases rest
    {
      var k :| k in rest;
      ks := InsertKey(ks, k);
      rest := rest - {k};
    }
  }

  // ---------------------------------------------------------------------
  // Setters

  /**
    The find / clean-up / assign-or-emplace block shared by every setter:
    the old cell under `key` is cleaned up before the new one takes its place.
    Ownership of the new cell's box passes to the map.
  */
  function Put(m: Data, key: string, c: Cell, h: Heap): (r: (Data, Heap))
    requires Owns(m, h) && BoxOf(c) <= h.live && BoxOf(c) !! Boxes(m)
    ensures r.0.Keys == m.Keys + {key} && r.0[key] == c
    ensures forall k :: k in m && k != key ==> r.0[k] == m[k]
    ensures Owns(r.0, r.1)
    ensures r.1.live - Boxes(r.0) == h.live - Boxes(m) - BoxOf(c)
  {
    BoxesPut(m, key, c);
    if key in m then (m[key := c], Cleanup(m[key], h)) else (m[key := c], h)
  }

  /**
    The generic setVal (and, through it, the `const char *` overload): stores
    a freshly constructed cell and sets the flag, whatever the value's kind.
  */
  function SetVal(d: Dict, key: string, v: Value, h: Heap): (r: Step)
    requires Valid(d, h)
    ensures r.dict.hasNonPodData
    ensures r.dict.data.Keys == d.data.Keys + {key}
    ensures ValueOf(r.dict.data[key]) == v
    ensures forall k :: k in d.data && k != key ==> r.dict.data[k] == d.data[k]
    ensures Valid(r.dict, r.heap)
    ensures Framed(d.data, h, r.dict.data, r.heap)
    ensures Boxes(r.dict.data) - Boxes(d.data) !! h.live
  {
    var (c, h1) := Construct(v, h);
    BoxesPut(d.data, key, c);
    var (m, h2) := Put(d.data, key, c, h1);
    Step(Dict(m, true), h2)
  }

  /** setVal(const char *): the text is stored as a std::string box. */
  function SetText(d: Dict, key: string, text: string, h: Heap): (r: Step)
    requires Valid(d, h)
    ensures r.dict.hasNonPodData
    ensures r.dict.data.Keys == d.data.Keys + {key}
    ensures r.dict.data[key].Boxed? && r.dict.data[key].payload == Text(text)
    ensures forall k :: k in d.data && k != key ==> r.dict.data[k] == d.data[k]
    ensures Valid(r.dict, r.heap)
    ensures Framed(d.data, h, r.dict.data, r.heap)
  {
    SetVal(d, key, Heaped(Text(text)), h)
  }

  /**
    setPODVal, and the bool / double / float / int / unsigned setVal overloads
    that forward to it: the flag is left as it was.
  */
  function SetPodVal(d: Dict, key: string, kind: PodKind, bits: int, h: Heap): (r: Step)
    requires Valid(d, h)
    ensures r.dict.hasNonPodData == d.hasNonPodData
    ensures r.dict.data.Keys == d.data.Keys + {key}
    ensures r.dict.data[key] == Pod(kind, bits)
    ensures forall k :: k in d.data && k != key ==> r.dict.data[k] == d.data[k]
    ensures Valid(r.dict, r.heap)
    ensures Framed(d.data, h, r.dict.data, r.heap)
  {
    var (m, h1) := Put(d.data, key, Pod(kind, bits), h);
    Step(Dict(m, d.hasNonPodData), h1)
  }

  /**
    moveInsert: stores the caller's cell itself (no copy); the caller hands
    over the box it exclusively owned. The flag is OR-ed with "not POD".
  */
  function MoveInsert(d: Dict, key: string, c: Cell, h: Heap): (r: Step)
    requires Valid(d, h) && BoxOf(c) <= h.live && BoxOf(c) !! Boxes(d.data)
    ensures r.dict.hasNonPodData == (d.hasNonPodData || !IsPod(c))
    ensures r.dict.data.Keys == d.data.Keys + {key} && r.dict.data[key] == c
    ensures forall k :: k in d.data && k != key ==> r.dict.data[k] == d.data[k]
    ensures Valid(r.dict, r.heap)
    ensures r.heap.live - Boxes(r.dict.data) == h.live - Boxes(d.data) - BoxOf(c)
  {
    var (m, h1) := Put(d.data, key, c, h);
    Step(Dict(m, d.hasNonPodData || !IsPod(c)), h1)
  }

  // ---------------------------------------------------------------------
  // Removal

  /**
    clearVal: removes `key` if present; its cell is cleaned up only when the
    flag is set (under the invariant an unflagged cell owns nothing).
  */
  function ClearVal(d: Dict, key: string, h: Heap): (r: Step)
    requires Valid(d, h)
    ensures r.dict.hasNonPodData == d.hasNonPodData
    ensures r.dict.data.Keys == d.data.Keys - {key}
    ensures forall k :: k in r.dict.data ==> r.dict.data[k] == d.data[k]
    ensures key !in d.data ==> r == Step(d, h)
    ensures Valid(r.dict, r.heap)
    ensures Framed(d.data, h, r.dict.data, r.heap)
  {
    if key in d.data then
      BoxesRemove(d.data, key);
      var h1 := if d.hasNonPodData then Cleanup(d.data[key], h) else h;
      Step(Dict(d.data - {key}, d.hasNonPodData), h1)
    else
      Step(d, h)
  }

  /** The heap after cleaning up every cell of `m` (reset's flagged branch). */
  function CleanupAll(m: Data, h: Heap): (h': Heap)
    requires Owns(m, h)
    ensures h'.live == h.live - Boxes(m) && h'.Valid()
  {
    Heap(h.live - Boxes(m), h.next)
  }

  /**
    reset: empties the map, cleaning the cells first only when the flag is
    set. The flag itself is kept (it is conservative, never re-derived).
  */
  function Reset(d: Dict, h: Heap): (r: Step)
    requires Valid(d, h)
    ensures r.dict.data == map[] && r.dict.hasNonPodData == d.hasNonPodData
    ensures r.heap.live == h.live - Boxes(d.data)
    ensures !d.hasNonPodData ==> r.heap == h
    ensures Valid(r.dict, r.heap)
  {
    UnflaggedOwnsNothing(d);
    Step(Dict(map[], d.hasNonPodData), if d.hasNonPodData then CleanupAll(d.data, h) else h)
  }

  /** ~Dict: the heap after destruction, which runs reset. */
  function Destroy(d: Dict, h: Heap): (h': Heap)
    requires Valid(d, h)
    ensures h'.live == h.live - Boxes(d.data)
    ensures h'.Valid()
  {
    Reset(d, h).heap
  }

  /**
    Dict(): the default dictionary is valid on any well-formed heap, holds no
    key, and its destruction frees nothing.
  */
  lemma DefaultDictValid(h: Heap)
    requires h.Valid()
    ensures Valid(EmptyDict, h)
    ensures forall key :: !HasVal(EmptyDict, key)
    ensures Destroy(EmptyDict, h) == h
  {
  }

  // ---------------------------------------------------------------------
  // Copies

  /**
    The copy constructor: a flagged source is deep-copied entry by entry, an
    unflagged one is copied bitwise (its cells own nothing).
  */
  function CopyConstruct(o: Dict, h: Heap): (r: Step)
    requires Valid(o, h)
    ensures r.dict.hasNonPodData == o.hasNonPodData
    ensures r.dict.data.Keys == o.data.Keys
    ensures forall k :: k in o.data ==> ValueOf(r.dict.data[k]) == ValueOf(o.data[k])
    ensures !o.hasNonPodData ==> r.dict.data == o.data && r.heap == h
    ensures Boxes(r.dict.data) !! h.live
    ensures r.heap.live == h.live + Boxes(r.dict.data)
    ensures Valid(r.dict, r.heap) && Valid(o, r.heap)
  {
    if o.hasNonPodData then
      var copies := CopyAll(o.data, h.next);
      CopiesAreFresh(map[], o.data, h);
      Step(Dict(copies, true), Grow(h, Boxes(copies)))
    else
      UnflaggedOwnsNothing(o);
      Step(o, h)
  }

  /**
    The entries a flagged source is emplaced on top of: nothing when the
    target was reset first, the target's own entries when it was not.
  */
  function AssignBase(d: Dict): (m: Data)
    ensures d.hasNonPodData ==> m == map[]
    ensures !d.hasNonPodData ==> m == d.data
  {
    if d.hasNonPodData then map[] else d.data
  }

  /**
    A copy assignment as written leaks: the target was not reset (its flag
    was false), the source is flagged, and a key both share holds a box in
    the source. Its deep copy is made and then dropped by `emplace`.
  */
  ghost predicate AssignLeaks(d: Dict, o: Dict) {
    !d.hasNonPodData && o.hasNonPodData && exists k :: k in d.data && k in o.data && !IsPod(o.data[k])
  }

  /**
    operator=(const Dict &) as written. `aliased` stands for `this == &other`.
    The target is reset only when its own flag is set; a flagged source's
    entries are then deep-copied and emplaced, and emplace keeps a key the
    target already has. So a POD-only target keeps its own entries, and the
    copies made for shared keys are lost without clean-up.
  */
  function CopyAssign(d: Dict, o: Dict, aliased: bool, h: Heap): (r: Step)
    requires aliased ==> d == o
    requires Valid(d, h) && Valid(o, h)
    requires !aliased ==> Boxes(d.data) !! Boxes(o.data)
    ensures aliased ==> r == Step(d, h)
    ensures !aliased ==> r.dict.hasNonPodData == o.hasNonPodData
    ensures !aliased && !o.hasNonPodData ==> r.dict.data == o.data
    ensures !aliased && o.hasNonPodData ==>
      && r.dict.data.Keys == o.data.Keys + AssignBase(d).Keys
      && (forall k :: k in AssignBase(d) ==> r.dict.data[k] == d.data[k])
      && (forall k :: k in o.data && k !in AssignBase(d) ==> ValueOf(r.dict.data[k]) == ValueOf(o.data[k]))
    ensures Valid(r.dict, r.heap) && Valid(o, r.heap)
    ensures !aliased ==> Boxes(r.dict.data) !! Boxes(o.data)
    ensures !aliased ==> (Framed(d.data, h, r.dict.data, r.heap) <==> !AssignLeaks(d, o))
  {
    if aliased then Step(d, h)
    else
      var h1 := if d.hasNonPodData then Reset(d, h).heap else h;
      if o.hasNonPodData then
        var base := AssignBase(d);
        var added := Missing(base, o.data, h1.next);
        var copies := CopyAll(o.data, h1.next);
        AssignAsWrittenHeap(d, o, h, h1);
        Step(Dict(base + added, true), Grow(h1, Boxes(copies)))
      else
        UnflaggedOwnsNothing(o);
        UnflaggedOwnsNothing(d);
        Step(Dict(o.data, false), h1)
  }

  /** The ownership facts behind CopyAssign's flagged-source branch. */
  lemma {:induction false} AssignAsWrittenHeap(d: Dict, o: Dict, h: Heap, h1: Heap)
    requires Valid(d, h) && Valid(o, h) && Boxes(d.data) !! Boxes(o.data)
    requires h1 == if d.hasNonPodData then Reset(d, h).heap else h
    ensures var base := AssignBase(d);
      var added := Missing(base, o.data, h1.next);
      var copies := CopyAll(o.data, h1.next);
      var m := base + added;
      var h2 := Grow(h1, Boxes(copies));
      && Valid(Dict(m, true), h2) && Valid(o, h2)
      && Boxes(m) !! Boxes(o.data)
      && (Framed(d.data, h, m, h2) <==> !AssignLeaks(d, o))
  {
    var base := AssignBase(d);
    var added := Missing(base, o.data, h1.next);
    var copies := CopyAll(o.data, h1.next);
    var m := base + added;
    var h2 := Grow(h1, Boxes(copies));
    assert Owns(o.data, h1);
    CopiesAreFresh(base, o.data, h1);
    CopiesAreFresh(map[], o.data, h1);
    UnflaggedOwnsNothing(d);
    assert Boxes(base) == {};
    BoxesUnion(base, added);
    assert Boxes(m) == Boxes(added);
    assert h2.Valid();
    // The copies that did not make it into the map are the leak.
    var lost := Boxes(copies) - Boxes(added);
    assert h2.live - Boxes(m) == (h.live - Boxes(d.data)) + lost;
    if AssignLeaks(d, o) {
      var k :| k in d.data && k in o.data && !IsPod(o.data[k]);
      assert copies[k].Boxed?;
      var id := copies[k].id;
      assert id in Boxes(copies);
      forall j | j in added && added[j].Boxed? ensures added[j].id != id {
        assert j != k && added[j] == copies[j];
      }
      assert id !in Boxes(added);
      assert id in h2.live - Boxes(m);
      assert id !in h.live;
    } else {
      assert lost == {} by {
        forall id | id in Boxes(copies) ensures id in Boxes(added) {
          var j :| j in copies && copies[j].Boxed? && copies[j].id == id;
          assert j !in base;
          assert added[j] == copies[j];
        }
      }
    }
  }

  /**
    Copy assignment as evidently intended: the target's old entries are
    always released (reset runs whatever the flag), then the source's are
    copied in. The result holds exactly the source's keys and values and
    nothing leaks.
  */
  function CopyAssignCorrected(d: Dict, o: Dict, aliased: bool, h: Heap): (r: Step)
    requires aliased ==> d == o
    requires Valid(d, h) && Valid(o, h)
    requires !aliased ==> Boxes(d.data) !! Boxes(o.data)
    ensures aliased ==> r == Step(d, h)
    ensures !aliased ==> r.dict.hasNonPodData == o.hasNonPodData
    ensures !aliased ==> r.dict.data.Keys == o.data.Keys
    ensures !aliased ==> forall k :: k in o.data ==> ValueOf(r.dict.data[k]) == ValueOf(o.data[k])
    ensures Valid(r.dict, r.heap) && Valid(o, r.heap)
    ensures !aliased ==> Boxes(r.dict.data) !! Boxes(o.data)
    ensures !aliased ==> Framed(d.data, h, r.dict.data, r.heap)
  {
    if aliased then Step(d, h)
    else
      var cleared := Reset(d, h);
      assert Valid(o, cleared.heap);
      CopyAssign(cleared.dict, o, false, cleared.heap)
  }

  // ---------------------------------------------------------------------
  // Moves

  /**
    The move constructor: the new dictionary takes the source's entries and
    flag; the source is left empty with its flag false.
  */
  function MoveConstruct(o: Dict): (r: (Dict, Dict))
    ensures r.0.data == o.data && r.0.hasNonPodData == o.hasNonPodData
    ensures r.1.data == map[] && !r.1.hasNonPodData
    ensures Boxes(r.0.data) == Boxes(o.data) && Boxes(r.1.data) == {}
    ensures FlagInvariant(o) ==> FlagInvariant(r.0) && FlagInvariant(r.1)
  {
    (o, EmptyDict)
  }

  /**
    operator=(Dict &&): a flagged target is reset first; the target then takes
    the source's entries and flag, and the source is left empty and unflagged.
    No cell is copied, so ownership of the source's boxes moves with them.
  */
  function MoveAssign(d: Dict, o: Dict, aliased: bool, h: Heap): (r: MoveStep)
    requires aliased ==> d == o
    requires Valid(d, h) && Valid(o, h)
    requires !aliased ==> Boxes(d.data) !! Boxes(o.data)
    ensures aliased ==> r == MoveStep(d, o, h)
    ensures !aliased ==> r.target.data == o.data && r.target.hasNonPodData == o.hasNonPodData
    ensures !aliased ==> r.source.data == map[] && !r.source.hasNonPodData
    ensures !aliased ==> r.heap.live == h.live - Boxes(d.data)
    ensures Valid(r.target, r.heap) && Valid(r.source, r.heap)
  {
    if aliased then MoveStep(d, o, h)
    else
      var h1 := if d.hasNonPodData then Reset(d, h).heap else h;
      UnflaggedOwnsNothing(d);
      var (target, source) := MoveConstruct(o);
      MoveStep(target, source, h1)
  }

  // ---------------------------------------------------------------------
  // Update

  /**
    update(other, preserveExisting). Without preserveExisting it is the copy
    assignment `*this = other`: a full replacement, not the key-by-key
    overwrite its comment announces. With it, the flags are OR-ed and only the
    keys the receiver lacks are deep-copied in; existing keys stay untouched.
    (The loop's `else if (!preserveExisting)` branch lies inside the
    preserveExisting case and never runs, so it has no counterpart here.)
  */
  function Update(d: Dict, o: Dict, preserveExisting: bool, aliased: bool, h: Heap): (r: Step)
    requires aliased ==> d == o
    requires Valid(d, h) && Valid(o, h)
    requires !aliased ==> Boxes(d.data) !! Boxes(o.data)
    ensures !preserveExisting ==> r == CopyAssign(d, o, aliased, h)
    ensures preserveExisting ==>
      && r.dict.hasNonPodData == (d.hasNonPodData || o.hasNonPodData)
      && r.dict.data.Keys == d.data.Keys + o.data.Keys
      && (forall k :: k in d.data ==> r.dict.data[k] == d.data[k])
      && (forall k :: k in o.data && k !in d.data ==> ValueOf(r.dict.data[k]) == ValueOf(o.data[k]))
      && Framed(d.data, h, r.dict.data, r.heap)
      && (!aliased ==> Boxes(r.dict.data) !! Boxes(o.data))
    ensures Valid(r.dict, r.heap) && Valid(o, r.heap)
  {
    if !preserveExisting then CopyAssign(d, o, aliased, h)
    else
      var added := Missing(d.data, o.data, h.next);
      MergeHeap(d, o, h);
      Step(Dict(d.data + added, d.hasNonPodData || o.hasNonPodData), Grow(h, Boxes(added)))
  }

  /** The ownership facts behind Update's preserving branch. */
  lemma {:induction false} MergeHeap(d: Dict, o: Dict, h: Heap)
    requires Valid(d, h) && Valid(o, h)
    ensures var added := Missing(d.data, o.data, h.next);
      var m := d.data + added;
      var h2 := Grow(h, Boxes(added));
      && Valid(Dict(m, d.hasNonPodData || o.hasNonPodData), h2) && Valid(o, h2)
      && Framed(d.data, h, m, h2)
      && Boxes(added) !! Boxes(o.data)
      && Boxes(m) == Boxes(d.data) + Boxes(added)
  {
    var added := Missing(d.data, o.data, h.next);
    var m := d.data + added;
    var h2 := Grow(h, Boxes(added));
    CopiesAreFresh(d.data, o.data, h);
    BoxesUnion(d.data, added);
    assert h2.Valid();
    UnflaggedOwnsNothing(o);
  }

  // ---------------------------------------------------------------------
  // PairHolder

  /** A (key, cell) pair that owns its cell independently of any Dict. */
  datatype PairHolder = PairHolder(key: string, val: Cell)

  /** The default PairHolder: an empty key and an empty cell. */
  const EmptyPair: PairHolder := PairHolder("", Empty)

  /** PairHolder(): the default holder owns no box, so destroying it frees nothing. */
  lemma DefaultPairOwnsNothing(h: Heap)
    ensures BoxOf(EmptyPair.val) == {}
    ensures PairDestroy(EmptyPair, h) == h
  {
  }

  /** PairHolder(const pair &): copies the key and deep-copies the cell. */
  function PairFromRef(key: string, c: Cell, h: Heap): (r: (PairHolder, Heap))
    requires h.Valid() && BoxOf(c) <= h.live
    ensures r.0.key == key && ValueOf(r.0.val) == ValueOf(c)
    ensures BoxOf(r.0.val) !! h.live
    ensures r.1.live == h.live + BoxOf(r.0.val) && r.1.Valid()
  {
    var (c', h') := CopyCell(c, h);
    (PairHolder(key, c'), h')
  }

  /**
    PairHolder(pair &&): takes the cell itself and re-tags the source cell
    empty, so the box changes owner instead of being duplicated. Returns the
    holder and what is left in the source.
  */
  function PairFromOwned(key: string, c: Cell): (r: (PairHolder, Cell))
    ensures r.0.key == key && r.0.val == c
    ensures r.1 == Empty && BoxOf(r.0.val) + BoxOf(r.1) == BoxOf(c)
  {
    (PairHolder(key, c), Empty)
  }

  /** ~PairHolder: always cleans up the held cell. */
  function PairDestroy(p: PairHolder, h: Heap): (h': Heap)
    requires BoxOf(p.val) <= h.live
    ensures h'.live == h.live - BoxOf(p.val)
    ensures h.Valid() ==> h'.Valid()
  {
    Cleanup(p.val, h)
  }

  // ---------------------------------------------------------------------
  // Properties

  /** A value stored with setVal is found again by getVal; other keys keep their lookups. */
  lemma SetThenGet(d: Dict, key: string, v: Value, other: string, h: Heap)
    requires Valid(d, h)
    ensures GetVal(SetVal(d, key, v, h).dict, key).Ok?
    ensures ValueOf(GetVal(SetVal(d, key, v, h).dict, key).value) == v
    ensures other != key ==> GetVal(SetVal(d, key, v, h).dict, other) == GetVal(d, other)
  {
  }

  /** The same round trip for the POD setters. */
  lemma SetPodThenGet(d: Dict, key: string, kind: PodKind, bits: int, other: string, h: Heap)
    requires Valid(d, h)
    ensures GetVal(SetPodVal(d, key, kind, bits, h).dict, key) == Ok(Pod(kind, bits))
    ensures other != key ==> GetVal(SetPodVal(d, key, kind, bits, h).dict, other) == GetVal(d, other)
  {
  }

  /**
    The flag is conservative: storing a heap value and clearing it again
    leaves the flag set, and so does a reset afterwards.
  */
  lemma FlagStaysSet(d: Dict, key: string, p: Payload, h: Heap)
    requires Valid(d, h)
    ensures var s := SetVal(d, key, Heaped(p), h);
      var c := ClearVal(s.dict, key, s.heap);
      && c.dict.hasNonPodData && !HasVal(c.dict, key)
      && Reset(c.dict, c.heap).dict.hasNonPodData
  {
  }

  /**
    A copy owns its boxes independently: after copy-constructing B from A,
    overwriting a key of A (which cleans A's old box) leaves every box of B
    live, and B's values unchanged.
  */
  lemma {:induction false} CopyIsIndependent(a: Dict, key: string, v: Value, h: Heap)
    requires Valid(a, h)
    ensures var b := CopyConstruct(a, h);
      var s := SetVal(a, key, v, b.heap);
      && Valid(b.dict, s.heap)
      && Boxes(b.dict.data) !! Boxes(s.dict.data)
  {
    var b := CopyConstruct(a, h);
    var s := SetVal(a, key, v, b.heap);
    assert Boxes(a.data) <= h.live;
    assert Boxes(b.dict.data) !! Boxes(a.data);
    assert Boxes(b.dict.data) <= s.heap.live - Boxes(s.dict.data);
  }

  /** Clearing any key and then destroying frees exactly the boxes the dictionary owned. */
  lemma ClearThenDestroyFreesEverything(d: Dict, key: string, h: Heap)
    requires Valid(d, h)
    ensures var c := ClearVal(d, key, h);
      Destroy(c.dict, c.heap).live == h.live - Boxes(d.data)
  {
  }

  /** update(B, false) on A = {x:1, y:2}, B = {y:9, z:3} yields exactly B: x is lost. */
  lemma UpdateReplacesExample(h: Heap)
    requires h.Valid()
    ensures var a := Dict(map["x" := Pod(IntTag, 1), "y" := Pod(IntTag, 2)], false);
      var b := Dict(map["y" := Pod(IntTag, 9), "z" := Pod(IntTag, 3)], false);
      Update(a, b, false, false, h).dict == b
  {
  }

  /** update(B, true) on the same maps yields {x:1, y:2, z:3}: y keeps its old value. */
  lemma UpdatePreservesExample(h: Heap)
    requires h.Valid()
    ensures var a := Dict(map["x" := Pod(IntTag, 1), "y" := Pod(IntTag, 2)], false);
      var b := Dict(map["y" := Pod(IntTag, 9), "z" := Pod(IntTag, 3)], false);
      Update(a, b, true, false, h).dict.data == map["x" := Pod(IntTag, 1), "y" := Pod(IntTag, 2), "z" := Pod(IntTag, 3)]
  {
  }

  /**
    The copy assignment as written, on a POD-only target {a: 1, b: 2} and a
    flagged source {a: "t"}: the target keeps both of its own entries instead
    of becoming a copy of the source, and the deep copy made for key "a" (box
    1) stays live while nothing owns it.
  */
  lemma CopyAssignLeaksExample()
    ensures var d := Dict(map["a" := Pod(IntTag, 1), "b" := Pod(IntTag, 2)], false);
      var o := Dict(map["a" := Boxed(0, Text("t"))], true);
      var h := Heap({0}, 1);
      var r := CopyAssign(d, o, false, h);
      && r.dict.data == d.data
      && r.dict.data.Keys != o.data.Keys
      && 1 in r.heap.live && 1 !in Boxes(r.dict.data) && 1 !in Boxes(o.data)
      && !Framed(d.data, h, r.dict.data, r.heap)
  {
    var d := Dict(map["a" := Pod(IntTag, 1), "b" := Pod(IntTag, 2)], false);
    var o := Dict(map["a" := Boxed(0, Text("t"))], true);
    var h := Heap({0}, 1);
    assert o.data["a"].id == 0;
    assert Boxes(o.data) == {0};
    assert Valid(d, h) && Valid(o, h);
    assert AssignLeaks(d, o);
    var copies := CopyAll(o.data, 1);
    assert copies["a"] == Boxed(1, Text("t"));
    assert 1 in Boxes(copies);
    assert Missing(d.data, o.data, 1) == map[];
    var r := CopyAssign(d, o, false, h);
    assert r.heap == Grow(h, Boxes(copies));
    assert "b" in r.dict.data.Keys - o.data.Keys;
  }
}
