/**
  `ParallaxScrollContainer`: the registry of mounted parallax elements (a
  JavaScript `Map` from `'key' + n` to the element, modelled with the integer
  `n` as key and an opaque element id as value) and the scroll dispatch that
  hands one frame to every registered element.

  Two defects of the component are modelled as written and beside them the
  evidently intended behaviour:
  - `handleNewElm` stores the element under `'key' + size` (size before the
    insertion) but reports `'key' + size` computed AFTER the insertion, so the
    id an element remembers is one more than its storage key.
  - `handleRemoveElm` wraps its two arrows in one pair of parentheses, a comma
    expression, so `setState` receives only the logging arrow and the
    `delete` never runs: deregistration leaves the registry unchanged.
 */
module Container {
  import opened Options
  import opened OrderedMaps
  import opened Progress

  type ElmId = nat

  /** The container state: `parallaxElements` and the `lastKey` field the component declares but never uses. */
  datatype Registry = Registry(elements: OMap<nat, ElmId>, lastKey: nat)

  const Empty := Registry([], 0)

  /** What `handleNewElm` leaves behind: the new registry and the key passed to the element's callback. */
  datatype Registered = Registered(registry: Registry, reportedKey: nat)

  /** The browser values a dispatch reads. */
  datatype Window = Window(
    outerHeight: real,
    pageYOffset: real, docScrollTop: real, bodyScrollTop: real,
    pageXOffset: real, docScrollLeft: real, bodyScrollLeft: real,
    innerHeight: real, innerWidth: real)

  /** Viewports whose outer height is below this get no parallax at all. */
  const MinOuterHeight: real := 780.0

  /** The frame literal built for each element: scroll offsets by the `||` fallback chain, the inner size. */
  function FrameOf(w: Window): (f: Frame)
    ensures f.screenY == w.innerHeight && f.screenX == w.innerWidth
    ensures w.pageYOffset != 0.0 ==> f.wrapperPosY == w.pageYOffset
    ensures w.pageYOffset == 0.0 && w.docScrollTop != 0.0 ==> f.wrapperPosY == w.docScrollTop
    ensures w.pageYOffset == 0.0 && w.docScrollTop == 0.0 ==> f.wrapperPosY == w.bodyScrollTop
    ensures w.pageXOffset != 0.0 ==> f.wrapperPosX == w.pageXOffset
    ensures w.pageXOffset == 0.0 && w.docScrollLeft != 0.0 ==> f.wrapperPosX == w.docScrollLeft
    ensures w.pageXOffset == 0.0 && w.docScrollLeft == 0.0 ==> f.wrapperPosX == w.bodyScrollLeft
  {
    Frame(
      FirstNonZero(w.pageYOffset, w.docScrollTop, w.bodyScrollTop),
      FirstNonZero(w.pageXOffset, w.docScrollLeft, w.bodyScrollLeft),
      w.innerHeight,
      w.innerWidth)
  }

  /** One `elm.onScroll(frame)` call made by a dispatch, with the key the element is stored under. */
  datatype Call = Call(key: nat, elm: ElmId, frame: Frame)

  /**
    The container's `onScroll`: nothing on a short viewport, otherwise one call
    per registry entry, in Map order. The window is read once per dispatch, so
    every call gets the same frame.
   */
  function Dispatch(reg: Registry, w: Window): (calls: seq<Call>)
    ensures w.outerHeight < MinOuterHeight ==> calls == []
    ensures w.outerHeight >= MinOuterHeight ==> |calls| == |reg.elements|
    ensures forall i :: 0 <= i < |calls| ==> calls[i].frame == FrameOf(w)
  {
    if w.outerHeight < MinOuterHeight then []
    else seq(|reg.elements|, i requires 0 <= i < |reg.elements| => Call(reg.elements[i].0, reg.elements[i].1, FrameOf(w)))
  }

  /** A present key sits at some index of the map. */
  lemma {:induction false} KeyIndex(m: OMap<nat, ElmId>, k: nat) returns (i: nat)
    requires HasKey(m, k)
    ensures i < |m| && m[i].0 == k
    ensures Get(m, k) == Some(m[i].1)
  {
    if m[0].0 == k {
      i := 0;
    } else {
      var j := KeyIndex(m[1..], k);
      i := j + 1;
    }
  }

  /** In a map without duplicate keys two entries with the same key are the same entry. */
  lemma {:induction false} DistinctIndex(m: OMap<nat, ElmId>, i: nat, j: nat)
    requires DistinctKeys(m) && i < |m| && j < |m| && m[i].0 == m[j].0
    ensures i == j
  {
    if i != 0 && j != 0 {
      DistinctIndex(m[1..], i - 1, j - 1);
    } else if i != j {
      var n := if i == 0 then j else i;
      HasKeyAt(m[1..], n - 1);
    }
  }

  /**
    On a tall enough viewport every registered element is called exactly once,
    with the element stored under its key; no call names an unregistered key.
   */
  lemma DispatchCallsEachOnce(reg: Registry, w: Window)
    requires DistinctKeys(reg.elements) && w.outerHeight >= MinOuterHeight
    ensures var calls := Dispatch(reg, w);
      forall k :: HasKey(reg.elements, k) ==>
        exists i :: 0 <= i < |calls| && calls[i].key == k && Some(calls[i].elm) == Get(reg.elements, k)
          && forall j :: 0 <= j < |calls| && calls[j].key == k ==> j == i
    ensures var calls := Dispatch(reg, w);
      forall i :: 0 <= i < |calls| ==> HasKey(reg.elements, calls[i].key)
  {
    var calls := Dispatch(reg, w);
    forall k | HasKey(reg.elements, k)
      ensures exists i :: 0 <= i < |calls| && calls[i].key == k && Some(calls[i].elm) == Get(reg.elements, k)
                          && forall j :: 0 <= j < |calls| && calls[j].key == k ==> j == i
    {
      var i := KeyIndex(reg.elements, k);
      assert calls[i].key == k && Some(calls[i].elm) == Get(reg.elements, k);
      forall j | 0 <= j < |calls| && calls[j].key == k ensures j == i {
        DistinctIndex(reg.elements, i, j);
      }
    }
    forall i | 0 <= i < |calls| ensures HasKey(reg.elements, calls[i].key) {
      HasKeyAt(reg.elements, i);
    }
  }

  /** Keys of an as-written registry: exactly `0 .. size-1`, in insertion order. */
  predicate Dense(reg: Registry) {
    forall i :: 0 <= i < |reg.elements| ==> reg.elements[i].0 == i
  }

  /** A dense registry holds exactly the keys below its size. */
  lemma {:induction false} DenseHasKey(m: OMap<nat, ElmId>, k: nat, offset: nat)
    requires forall i :: 0 <= i < |m| ==> m[i].0 == i + offset
    ensures HasKey(m, k) <==> offset <= k < offset + |m|
    decreases |m|
  {
    if m != [] {
      DenseHasKey(m[1..], k, offset + 1);
    }
  }

  /** A dense registry has no duplicate keys. */
  lemma {:induction false} DenseDistinct(m: OMap<nat, ElmId>, offset: nat)
    requires forall i :: 0 <= i < |m| ==> m[i].0 == i + offset
    ensures DistinctKeys(m)
    decreases |m|
  {
    if m != [] {
      DenseHasKey(m[1..], m[0].0, offset + 1);
      DenseDistinct(m[1..], offset + 1);
    }
  }

  /**
    `handleNewElm` as written: the element goes under `'key' + m.size`; the
    callback then receives `'key' + m.size` evaluated after the insertion
    (source line 39). For a registry without duplicate keys the Map size is the
    number of entries.
   */
  function RegisterAsWritten(reg: Registry, elm: ElmId): Registered {
    var m := Set<nat, ElmId>(reg.elements, |reg.elements|, elm);
    Registered(reg.(elements := m), |m|)
  }

  /**
    On a registry built by registrations only, the element is appended under
    the next key and the registry stays dense, but the key reported to the
    element is one past its storage key and names no entry.
   */
  lemma RegisterAsWrittenReportsWrongKey(reg: Registry, elm: ElmId)
    requires Dense(reg)
    ensures var r := RegisterAsWritten(reg, elm);
      && r.registry.elements == reg.elements + [(|reg.elements|, elm)]
      && Dense(r.registry)
      && r.reportedKey == |reg.elements| + 1
      && !HasKey(r.registry.elements, r.reportedKey)
  {
    var n := |reg.elements|;
    DenseHasKey(reg.elements, n, 0);
    SetNewAppends(reg.elements, n, elm);
    var m := reg.elements + [(n, elm)];
    DenseHasKey(m, n + 1, 0);
  }

  /** Writing an absent key appends exactly one entry. */
  lemma {:induction false} SetNewAppends(m: OMap<nat, ElmId>, k: nat, v: ElmId)
    requires !HasKey(m, k)
    ensures Set(m, k, v) == m + [(k, v)]
  {
    if m != [] {
      SetNewAppends(m[1..], k, v);
      assert m == [m[0]] + m[1..];
    }
  }

  /**
    The id a first element remembers is the storage key of the NEXT element
    registered: were the delete ever to run, unmounting the first element
    would deregister the second.
   */
  lemma ReportedKeyNamesNextElement(reg: Registry, a: ElmId, b: ElmId)
    requires Dense(reg)
    ensures var r1 := RegisterAsWritten(reg, a);
      var r2 := RegisterAsWritten(r1.registry, b);
      Get(r2.registry.elements, r1.reportedKey) == Some(b)
  {
    RegisterAsWrittenReportsWrongKey(reg, a);
    var r1 := RegisterAsWritten(reg, a);
    RegisterAsWrittenReportsWrongKey(r1.registry, b);
    var r2 := RegisterAsWritten(r1.registry, b);
    var i := |r1.registry.elements|;
    DenseDistinct(r2.registry.elements, 0);
    GetAt(r2.registry.elements, i);
  }

  /**
    `handleRemoveElm` as written: the early return for an unknown key, and
    otherwise a `setState` whose argument is the logging arrow alone (the
    comma expression discards the updater that deletes the key), so the
    registry is returned untouched on both paths.
   */
  function DeregisterAsWritten(reg: Registry, key: nat): Registry {
    reg
  }

  /**
    As written, deregistration never removes anything: after registering an
    element into an empty container and deregistering it with either the key
    it was given or the key it is stored under, the container still holds it.
   */
  lemma DeregisterAsWrittenKeepsElement(elm: ElmId)
    ensures var r := RegisterAsWritten(Empty, elm);
      && DeregisterAsWritten(r.registry, r.reportedKey).elements == [(0, elm)]
      && DeregisterAsWritten(r.registry, 0).elements == [(0, elm)]
  {
  }

  /** The intended registry invariant: distinct keys, all below the key counter. */
  predicate Valid(reg: Registry) {
    && DistinctKeys(reg.elements)
    && forall i :: 0 <= i < |reg.elements| ==> reg.elements[i].0 < reg.lastKey
  }

  /** No key at or above a bound every key stays below is present. */
  lemma {:induction false} KeysBelow(m: OMap<nat, ElmId>, bound: nat, k: nat)
    requires forall i :: 0 <= i < |m| ==> m[i].0 < bound
    requires bound <= k
    ensures !HasKey(m, k)
  {
    if m != [] {
      KeysBelow(m[1..], bound, k);
    }
  }

  /**
    Intended registration: the element is stored under a fresh key minted from
    the `lastKey` counter, and that same key is reported to the element.
   */
  function Register(reg: Registry, elm: ElmId): (r: Registered)
    requires Valid(reg)
    ensures Valid(r.registry)
    ensures !HasKey(reg.elements, r.reportedKey)
    ensures Get(r.registry.elements, r.reportedKey) == Some(elm)
    ensures forall k :: k != r.reportedKey ==> Get(r.registry.elements, k) == Get(reg.elements, k)
    ensures r.registry.elements == reg.elements + [(r.reportedKey, elm)]
  {
    var key := reg.lastKey;
    KeysBelow(reg.elements, key, key);
    SetNewAppends(reg.elements, key, elm);
    SetDistinct(reg.elements, key, elm);
    SetGet(reg.elements, key, elm, key);
    assert forall k :: k != key ==> Get(Set(reg.elements, key, elm), k) == Get(reg.elements, k) by {
      forall k | k != key { SetGet(reg.elements, key, elm, k); }
    }
    Registered(Registry(Set(reg.elements, key, elm), key + 1), key)
  }

  /**
    Intended deregistration: an unknown key is a no-op (the `has` guard);
    a known key is deleted and every other entry keeps its place.
   */
  function Deregister(reg: Registry, key: nat): (r: Registry)
    requires Valid(reg)
    ensures Valid(r)
    ensures !HasKey(r.elements, key)
    ensures !HasKey(reg.elements, key) ==> r == reg
    ensures forall k :: k != key ==> Get(r.elements, k) == Get(reg.elements, k)
  {
    if !HasKey(reg.elements, key) then reg
    else
      DeleteDistinct(reg.elements, key);
      DeleteEntries(reg.elements, key);
      assert forall k :: k != key ==> Get(Delete(reg.elements, key), k) == Get(reg.elements, k) by {
        forall k | k != key { DeleteGet(reg.elements, key, k); }
      }
      DeleteHasKey(reg.elements, key, key);
      reg.(elements := Delete(reg.elements, key))
  }

  /** Every entry left by a delete was an entry before. */
  lemma {:induction false} DeleteEntries(m: OMap<nat, ElmId>, k: nat)
    ensures forall i :: 0 <= i < |Delete(m, k)| ==> Delete(m, k)[i] in m
  {
    if m != [] {
      DeleteEntries(m[1..], k);
      var d := Delete(m[1..], k);
      forall i | 0 <= i < |Delete(m, k)| ensures Delete(m, k)[i] in m {
        if m[0].0 != k && i > 0 {
          assert Delete(m, k)[i] == d[i - 1];
          assert d[i - 1] in m[1..];
        } else if m[0].0 == k {
          assert d[i] in m[1..];
        }
      }
    }
  }

  /** Registering and then deregistering with the reported key gives back the same entries. */
  lemma RegisterDeregister(reg: Registry, elm: ElmId)
    requires Valid(reg)
    ensures var r := Register(reg, elm);
      Deregister(r.registry, r.reportedKey).elements == reg.elements
  {
    var r := Register(reg, elm);
    GetHasKey(r.registry.elements, r.reportedKey);
    assert r.registry.elements == Set(reg.elements, r.reportedKey, elm);
    DeleteSetNew(reg.elements, r.reportedKey, elm);
  }

  /**
    Intended lifecycle: a container whose only element registered and then
    unmounted before any scroll is empty again, and its next dispatch calls
    nobody.
   */
  lemma MountUnmountLeavesNothing(elm: ElmId, w: Window)
    ensures var r := Register(Empty, elm);
      var after := Deregister(r.registry, r.reportedKey);
      after.elements == [] && Dispatch(after, w) == []
  {
    RegisterDeregister(Empty, elm);
  }

  /**
    Why the intended registration mints from a counter: keeping the
    `'key' + size` rule once deletion works reuses a live key, and the third
    element silently replaces the second.
   */
  lemma SizeMintingCollides(a: ElmId, b: ElmId, c: ElmId)
    ensures var r1 := RegisterAsWritten(Empty, a).registry;
      var r2 := RegisterAsWritten(r1, b).registry;
      var r3 := r2.(elements := Delete(r2.elements, 0));
      var r4 := RegisterAsWritten(r3, c).registry;
      r4.elements == [(1, c)]
  {
    var r1 := RegisterAsWritten(Empty, a).registry;
    assert r1.elements == [(0, a)];
    var r2 := RegisterAsWritten(r1, b).registry;
    assert [(0, a)][1..] == [];
    assert Set<nat, ElmId>([(0, a)], 1, b) == [(0, a)] + Set<nat, ElmId>([], 1, b);
    assert r2.elements == [(0, a), (1, b)];
    var r3 := r2.(elements := Delete(r2.elements, 0));
    assert r2.elements[1..] == [(1, b)];
    assert r2.elements[1..][1..] == [];
    assert Delete<nat, ElmId>([(1, b)], 0) == [(1, b)] + Delete<nat, ElmId>([], 0);
    assert r3.elements == [(1, b)];
    assert Set<nat, ElmId>(r3.elements, 1, c) == [(1, c)];
  }

  /**
    `handleNewElm` then runs a dispatch once the state is updated: on a tall
    enough viewport the new element receives a frame straight away.
   */
  lemma NewElementGetsInitialFrame(reg: Registry, elm: ElmId, w: Window)
    requires Valid(reg) && w.outerHeight >= MinOuterHeight
    ensures var r := Register(reg, elm);
      Call(r.reportedKey, elm, FrameOf(w)) in Dispatch(r.registry, w)
  {
    var r := Register(reg, elm);
    var calls := Dispatch(r.registry, w);
    assert calls[|reg.elements|] == Call(r.reportedKey, elm, FrameOf(w));
  }
}
