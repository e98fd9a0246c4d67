/**
  The replay window, kept by the firmware in 64 bits and by the backend in an unbounded
  integer.

  Bit d of either window is meant to tell whether the id d below the highest one has been
  accepted. `Window` is that number written down from the set of accepted ids; the firmware
  stores it exactly, the backend stores some number that equals it modulo 2^64. Both
  therefore decide `Fresh` on every id.
 */
module Replay {
  import opened Basics
  import opened Powers

  const WINDOW_SIZE: nat := 64

  /** `w & (1 << d)`, as 0 or 1. */
  function Bit(w: nat, d: nat): nat {
    if d == 0 then w % 2 else Bit(w / 2, d - 1)
  }

  /** `w | (1 << d)`. */
  function SetBit(w: nat, d: nat): nat {
    if Bit(w, d) == 1 then w else w + Pow2(d)
  }

  /** `w << s`, without a width. */
  function ShiftLeft(w: nat, s: nat): nat {
    w * Pow2(s)
  }

  /** The low `n` bits of a number. */
  function LowBits(w: nat, n: nat): (r: nat)
    ensures r < Pow2(n)
  {
    w % Pow2(n)
  }

  /** What a uint64_t keeps of `w`. */
  function Truncate(w: nat): (r: nat)
    ensures r < Pow2(64)
  {
    LowBits(w, 64)
  }

  // ---------------------------------------------------------------- what the window means

  /** An id neither seen nor too old, given the ids accepted so far. */
  predicate Fresh(accepted: set<nat>, id: nat) {
    id != 0 && id !in accepted && forall a :: a in accepted ==> a < id + WINDOW_SIZE
  }

  /** The `n` bits for highest, highest - 1, ..., highest - n + 1. */
  ghost function Window(accepted: set<nat>, highest: int, n: nat): nat
    decreases n, |accepted|
  {
    if n == 0 then 0
    else (if highest >= 0 && highest in accepted then 1 else 0) + 2 * Window(accepted, highest - 1, n - 1)
  }

  ghost predicate IsHighest(accepted: set<nat>, highest: nat) {
    highest in accepted && forall a :: a in accepted ==> 0 < a <= highest
  }

  // ---------------------------------------------------------------- arithmetic of the window

  lemma {:induction false} WindowBit(accepted: set<nat>, highest: int, n: nat, d: nat)
    requires d < n
    ensures Bit(Window(accepted, highest, n), d) == if highest - d >= 0 && highest - d in accepted then 1 else 0
    decreases d
  {
    if d > 0 {
      WindowBit(accepted, highest - 1, n - 1, d - 1);
    }
  }

  lemma ModuloHalves(w: nat, m: nat)
    requires m > 0
    ensures w % (2 * m) == w % 2 + 2 * (w / 2 % m)
  {
    var q, r := w / 2 / m, w / 2 % m;
    assert w == (2 * m) * q + (2 * r + w % 2);
    assert 0 <= 2 * r + w % 2 < 2 * m;
    ModuloUnique(w, 2 * m, q, 2 * r + w % 2);
  }

  lemma ModuloUnique(w: nat, m: nat, q: nat, r: nat)
    requires m > 0 && w == m * q + r && r < m
    ensures w % m == r
  {
    var k, rest := w / m, w % m;
    assert m * (k - q) == m * k - m * q == r - rest;
    if k > q {
      AtLeastOnce(m, k - q);
    } else if k < q {
      AtLeastOnce(m, q - k);
    }
  }

  lemma AtLeastOnce(m: nat, n: nat)
    requires n > 0
    ensures m * n >= m
  {
    assert m * n == m * (n - 1) + m;
  }

  /** The low bits, one by one. */
  lemma LowBitsStep(w: nat, n: nat)
    ensures LowBits(w, n) == if n == 0 then 0 else w % 2 + 2 * LowBits(w / 2, n - 1)
  {
    if n > 0 {
      ModuloHalves(w, Pow2(n - 1));
    }
  }

  /** Only the low bits of a number decide its low bits. */
  lemma {:induction false} BitOfLowBits(w: nat, n: nat, d: nat)
    requires d < n
    ensures Bit(LowBits(w, n), d) == Bit(w, d)
    decreases d
  {
    hide LowBits;
    LowBitsStep(w, n);
    if d > 0 {
      BitOfLowBits(w / 2, n - 1, d - 1);
    }
  }

  /** Fewer bits of the window are its low bits. */
  lemma {:induction false} WindowLowBits(accepted: set<nat>, highest: int, n: nat, k: nat)
    requires k <= n
    ensures LowBits(Window(accepted, highest, n), k) == Window(accepted, highest, k)
    decreases n
  {
    hide LowBits;
    LowBitsStep(Window(accepted, highest, n), k);
    if k > 0 {
      WindowLowBits(accepted, highest - 1, n - 1, k - 1);
    }
  }

  lemma {:induction false} LowBitsTwice(w: nat, n: nat, k: nat)
    requires k <= n
    ensures LowBits(LowBits(w, n), k) == LowBits(w, k)
    decreases n
  {
    hide LowBits;
    LowBitsStep(w, n);
    LowBitsStep(w, k);
    LowBitsStep(LowBits(w, n), k);
    if k > 0 {
      LowBitsTwice(w / 2, n - 1, k - 1);
    }
  }

  /** Shifting left by `s`, where none of the `s` ids above the highest was accepted. */
  lemma {:induction false} WindowShift(accepted: set<nat>, highest: int, w: nat, s: nat, n: nat)
    requires n > 0 && LowBits(w, n) == Window(accepted, highest, n)
    requires forall i: nat :: highest < i <= highest + s ==> i !in accepted
    ensures LowBits(ShiftLeft(w, s), n) == Window(accepted, highest + s, n)
    decreases s
  {
    hide LowBits, ShiftLeft;
    if s > 0 {
      WindowShift(accepted, highest, w, s - 1, n);
      ShiftByOne(w, s, n);
      WindowLowBits(accepted, highest + s - 1, n, n - 1);
      assert highest + s >= 0 ==> highest + s !in accepted;
    } else {
      NoShift(w);
    }
  }

  lemma NoShift(w: nat)
    ensures ShiftLeft(w, 0) == w
  {
  }

  lemma ShiftByOne(w: nat, s: nat, n: nat)
    requires s > 0 && n > 0
    ensures LowBits(ShiftLeft(w, s), n) == 2 * LowBits(LowBits(ShiftLeft(w, s - 1), n), n - 1)
  {
    hide LowBits;
    var v := w * Pow2(s - 1);
    DoubleProduct(w, Pow2(s - 1));
    LowBitsStep(2 * v, n);
    LowBitsTwice(v, n, n - 1);
  }

  lemma DoubleProduct(w: nat, p: nat)
    ensures w * (2 * p) == 2 * (w * p)
  {
  }

  /** Accepting an id no newer than the highest sets one bit of the window. */
  lemma {:induction false} WindowAdd(accepted: set<nat>, highest: nat, d: nat, n: nat)
    requires d < n && d <= highest && highest - d !in accepted
    ensures Window(accepted + {highest - d}, highest, n) == Window(accepted, highest, n) + Pow2(d)
    decreases d
  {
    if d > 0 {
      WindowAdd(accepted, highest - 1, d - 1, n - 1);
    } else {
      WindowIgnoresNewer(accepted, highest, highest - 1, n - 1);
    }
  }

  lemma {:induction false} WindowIgnoresNewer(accepted: set<nat>, id: nat, highest: int, n: nat)
    requires id > highest
    ensures Window(accepted + {id}, highest, n) == Window(accepted, highest, n)
    decreases n
  {
    if n > 0 {
      WindowIgnoresNewer(accepted, id, highest - 1, n - 1);
    }
  }

  lemma {:induction false} WindowEmpty(accepted: set<nat>, highest: int, n: nat)
    requires forall i: nat :: highest - n < i <= highest ==> i !in accepted
    ensures Window(accepted, highest, n) == 0
    decreases n
  {
    if n > 0 {
      WindowEmpty(accepted, highest - 1, n - 1);
    }
  }

  lemma {:induction false} WindowBelow(accepted: set<nat>, highest: int, n: nat)
    ensures Window(accepted, highest, n) < Pow2(n)
    decreases n
  {
    if n > 0 {
      WindowBelow(accepted, highest - 1, n - 1);
    }
  }

  lemma LowestBit(accepted: set<nat>, highest: nat, n: nat)
    requires n > 0
    ensures Window(accepted, highest, n) % 2 == if highest in accepted then 1 else 0
  {
  }

  lemma PowZero()
    ensures Pow2(0) == 1
  {
  }

  /** Everything the two `check` functions rely on, for an id above the highest one. */
  lemma NewerId(accepted: set<nat>, highest: nat, w: nat, id: nat)
    requires IsHighest(accepted, highest) && id > highest && Truncate(w) == Window(accepted, highest, WINDOW_SIZE)
    ensures Fresh(accepted, id) && IsHighest(accepted + {id}, id)
    ensures id - highest >= WINDOW_SIZE ==> Window(accepted + {id}, id, WINDOW_SIZE) == 1
    ensures var shifted := Truncate(ShiftLeft(w, id - highest));
            id - highest < WINDOW_SIZE ==> shifted % 2 == 0 && Window(accepted + {id}, id, WINDOW_SIZE) == shifted + 1
  {
    hide Pow2, Window;
    LowestBit(accepted, id, WINDOW_SIZE);
    PowZero();
    WindowAdd(accepted, id, 0, WINDOW_SIZE);
    if id - highest >= WINDOW_SIZE {
      WindowEmpty(accepted, id, WINDOW_SIZE);
    } else {
      WindowShift(accepted, highest, w, id - highest, WINDOW_SIZE);
    }
  }

  /** And for an id not above it. */
  lemma OlderId(accepted: set<nat>, highest: nat, w: nat, id: nat)
    requires IsHighest(accepted, highest) && 0 < id <= highest && Truncate(w) == Window(accepted, highest, WINDOW_SIZE)
    ensures var d := highest - id;
            Fresh(accepted, id) <==> d < WINDOW_SIZE && Bit(w, d) == 0
    ensures var d := highest - id;
            Fresh(accepted, id) ==>
              && IsHighest(accepted + {id}, highest)
              && Window(accepted + {id}, highest, WINDOW_SIZE) == Window(accepted, highest, WINDOW_SIZE) + Pow2(d)
    ensures Fresh(accepted, id) ==> Truncate(w + Pow2(highest - id)) == Truncate(w) + Pow2(highest - id)
  {
    hide Pow2, Window, Bit, LowBits;
    var d := highest - id;
    if d < WINDOW_SIZE {
      BitOfLowBits(w, WINDOW_SIZE, d);
      WindowBit(accepted, highest, WINDOW_SIZE, d);
      if id !in accepted {
        WindowAdd(accepted, highest, d, WINDOW_SIZE);
        WindowBelow(accepted + {id}, highest, WINDOW_SIZE);
        AddWithin(w, Pow2(d), WINDOW_SIZE);
      }
    }
  }

  lemma AddWithin(w: nat, a: nat, n: nat)
    requires LowBits(w, n) + a < Pow2(n)
    ensures LowBits(w + a, n) == LowBits(w, n) + a
  {
    hide Pow2;
    var m := Pow2(n);
    ModuloUnique(w + a, m, w / m, w % m + a);
  }

  lemma FirstId(id: nat)
    requires id > 0
    ensures Fresh({}, id) && IsHighest({id}, id) && Window({id}, id, WINDOW_SIZE) == 1
  {
    hide Pow2, Window;
    WindowEmpty({}, id, WINDOW_SIZE);
    WindowAdd({}, id, 0, WINDOW_SIZE);
    PowZero();
    assert {} + {id} == {id};
  }

  // ---------------------------------------------------------------- firmware

  /** ykp_replay_ctx_t. */
  class ReplayContext {
    var highestId: nat
    var windowBits: nat
    var initialised: bool
    ghost var accepted: set<nat>

    ghost predicate Valid()
      reads this
    {
      && highestId <= UINT32_MAX && windowBits < Pow2(64)
      && (accepted == {} && initialised ==> highestId == 0 && windowBits == 0)
      && (accepted != {} ==>
            initialised && IsHighest(accepted, highestId) && windowBits == Window(accepted, highestId, WINDOW_SIZE))
    }

    /** A zeroed static context. */
    constructor ()
      ensures Valid() && accepted == {}
    {
      highestId, windowBits, initialised, accepted := 0, 0, false, {};
    }

    /** ykp_replay_init, and ykp_replay_reset which calls it. */
    method Reset()
      modifies this
      ensures Valid() && accepted == {} && initialised
    {
      highestId, windowBits, initialised, accepted := 0, 0, true, {};
    }

    /** ykp_replay_check. */
    method Check(id: nat) returns (ok: bool)
      requires Valid() && id <= UINT32_MAX
      modifies this
      ensures Valid()
      ensures ok == Fresh(old(accepted), id)
      ensures accepted == if ok then old(accepted) + {id} else old(accepted)
    {
      hide Pow2, Window, Bit, SetBit, ShiftLeft, Truncate;
      if !initialised {
        Reset();
      }
      if id == 0 {
        return false;
      }
      if highestId == 0 && windowBits == 0 {
        FirstId(id);
        WindowBelow({id}, id, WINDOW_SIZE);
        highestId, windowBits, accepted := id, 1, accepted + {id};
        assert accepted == {id};
        return true;
      }
      TruncateSmall(windowBits);
      if id > highestId {
        NewerId(accepted, highestId, windowBits, id);
        WindowBelow(accepted + {id}, id, WINDOW_SIZE);
        var shift := id - highestId;
        if shift >= WINDOW_SIZE {
          windowBits := 1;
        } else {
          windowBits := Truncate(ShiftLeft(windowBits, shift));
          BitZero(windowBits);
          windowBits := SetBit(windowBits, 0);
        }
        highestId, accepted := id, accepted + {id};
        return true;
      }
      OlderId(accepted, highestId, windowBits, id);
      var diff := highestId - id;
      SetUnsetBit(windowBits, diff);
      if diff >= WINDOW_SIZE {
        return false;
      }
      if Bit(windowBits, diff) != 0 {
        return false;
      }
      WindowBelow(accepted + {id}, highestId, WINDOW_SIZE);
      windowBits := SetBit(windowBits, diff);
      accepted := accepted + {id};
      ok := true;
    }
  }

  lemma TruncateSmall(w: nat)
    requires w < Pow2(64)
    ensures Truncate(w) == w
  {
    hide Pow2;
    ModuloUnique(w, Pow2(64), 0, w);
  }

  lemma SetUnsetBit(w: nat, d: nat)
    ensures Bit(w, d) < 2 && (Bit(w, d) == 0 ==> SetBit(w, d) == w + Pow2(d))
  {
    BitIsBit(w, d);
  }

  lemma {:induction false} BitIsBit(w: nat, d: nat)
    ensures Bit(w, d) < 2
  {
    if d > 0 {
      BitIsBit(w / 2, d - 1);
    }
  }

  lemma BitZero(w: nat)
    ensures Bit(w, 0) == w % 2 && SetBit(w, 0) == w + 1 - w % 2
  {
  }

  // ---------------------------------------------------------------- backend

  /** ReplayGuard, whose window is a BigInt that is never truncated. */
  class ReplayGuard {
    var highestId: nat
    var windowBits: nat
    var initialised: bool
    ghost var accepted: set<nat>

    ghost predicate Valid()
      reads this
    {
      && (!initialised ==> accepted == {})
      && (initialised ==>
            && IsHighest(accepted, highestId)
            && Truncate(windowBits) == Window(accepted, highestId, WINDOW_SIZE))
    }

    constructor ()
      ensures Valid() && accepted == {}
    {
      highestId, windowBits, initialised, accepted := 0, 0, false, {};
    }

    /** reset. */
    method Reset()
      modifies this
      ensures Valid() && accepted == {}
    {
      highestId, windowBits, initialised, accepted := 0, 0, false, {};
    }

    /** check. */
    method Check(id: nat) returns (ok: bool)
      requires Valid()
      modifies this
      ensures Valid()
      ensures ok == Fresh(old(accepted), id)
      ensures accepted == if ok then old(accepted) + {id} else old(accepted)
    {
      hide Pow2, Window, Bit, SetBit, ShiftLeft, Truncate;
      if id == 0 {
        return false;
      }
      if !initialised {
        FirstId(id);
        WindowBelow({id}, id, WINDOW_SIZE);
        TruncateSmall(1);
        highestId, windowBits, initialised, accepted := id, 1, true, accepted + {id};
        assert accepted == {id};
        return true;
      }
      if id > highestId {
        NewerId(accepted, highestId, windowBits, id);
        WindowBelow(accepted + {id}, id, WINDOW_SIZE);
        var shift := id - highestId;
        if shift >= WINDOW_SIZE {
          windowBits := 1;
          TruncateSmall(1);
        } else {
          EvenShift(windowBits, shift);
          BitZero(ShiftLeft(windowBits, shift));
          windowBits := SetBit(ShiftLeft(windowBits, shift), 0);
        }
        highestId, accepted := id, accepted + {id};
        return true;
      }
      OlderId(accepted, highestId, windowBits, id);
      var diff := highestId - id;
      SetUnsetBit(windowBits, diff);
      if diff >= WINDOW_SIZE {
        return false;
      }
      if Bit(windowBits, diff) != 0 {
        return false;
      }
      windowBits := SetBit(windowBits, diff);
      accepted := accepted + {id};
      ok := true;
    }
  }

  lemma EvenShift(w: nat, s: nat)
    requires s > 0
    ensures ShiftLeft(w, s) % 2 == 0 && Truncate(ShiftLeft(w, s) + 1) == Truncate(ShiftLeft(w, s)) + 1
  {
    hide LowBits;
    DoubleProduct(w, Pow2(s - 1));
    OddAfterEven(w * Pow2(s - 1), WINDOW_SIZE - 1);
  }

  lemma OddAfterEven(v: nat, n: nat)
    ensures LowBits(2 * v + 1, n + 1) == LowBits(2 * v, n + 1) + 1
  {
    hide LowBits;
    LowBitsStep(2 * v, n + 1);
    LowBitsStep(2 * v + 1, n + 1);
  }

  // ---------------------------------------------------------------- whole runs

  /** The ids accepted after a run from reset. */
  function Accepted(ids: seq<nat>): set<nat> {
    if ids == [] then {}
    else
      var before, id := Accepted(ids[..|ids| - 1]), ids[|ids| - 1];
      if Fresh(before, id) then before + {id} else before
  }

  predicate Verdict(ids: seq<nat>, i: nat)
    requires i < |ids|
  {
    Fresh(Accepted(ids[..i]), ids[i])
  }

  lemma {:induction false} AcceptedMeans(ids: seq<nat>, a: nat)
    ensures a in Accepted(ids) <==> exists i: nat :: i < |ids| && ids[i] == a && Verdict(ids, i)
  {
    if ids != [] {
      var last := |ids| - 1;
      AcceptedMeans(ids[..last], a);
      assert forall i: nat :: i < last ==> ids[..last][..i] == ids[..i];
      if a in Accepted(ids[..last]) {
        var i: nat :| i < last && ids[..last][i] == a && Verdict(ids[..last], i);
        assert ids[i] == a && Verdict(ids, i);
      } else if a in Accepted(ids) {
        assert ids[last] == a && Verdict(ids, last);
      } else if i: nat :| i < |ids| && ids[i] == a && Verdict(ids, i) {
        assert i < last ==> ids[..last][i] == a && Verdict(ids[..last], i);
      }
    }
  }

  /** When an id is accepted, in terms of the verdicts before it. */
  lemma VerdictExactly(ids: seq<nat>, i: nat)
    requires i < |ids|
    ensures Verdict(ids, i) <==>
            ids[i] != 0 && forall j: nat :: j < i && Verdict(ids, j) ==>
                  ids[j] != ids[i] && ids[j] < ids[i] + WINDOW_SIZE
  {
    var before := ids[..i];
    assert forall j: nat :: j < i ==> before[..j] == ids[..j];
    forall j: nat | j < i && Verdict(ids, j)
      ensures ids[j] in Accepted(before)
    {
      assert before[j] == ids[j] && Verdict(before, j);
      AcceptedMeans(before, ids[j]);
    }
    forall a | a in Accepted(before)
      ensures exists j: nat :: j < i && Verdict(ids, j) && ids[j] == a
    {
      AcceptedMeans(before, a);
      var j: nat :| j < |before| && before[j] == a && Verdict(before, j);
      assert Verdict(ids, j);
    }
  }

  lemma HighestIsUnique(accepted: set<nat>, a: nat, b: nat)
    requires IsHighest(accepted, a) && IsHighest(accepted, b)
    ensures a == b
  {
  }

  /** After the same ids, the firmware's bits are the low 64 bits of the backend's. */
  lemma SameWindow(c: ReplayContext, g: ReplayGuard)
    requires c.Valid() && g.Valid() && c.accepted == g.accepted != {}
    ensures c.highestId == g.highestId && c.windowBits == Truncate(g.windowBits)
  {
    hide Pow2, Window;
    HighestIsUnique(c.accepted, c.highestId, g.highestId);
  }

  /** Both implementations on one stream of ids. */
  method RunBoth(ids: seq<nat>) returns (firmware: seq<bool>, backend: seq<bool>)
    requires forall i :: 0 <= i < |ids| ==> ids[i] <= UINT32_MAX
    ensures firmware == backend && |firmware| == |ids|
    ensures forall i :: 0 <= i < |ids| ==> firmware[i] == Verdict(ids, i)
  {
    hide Pow2, Window;
    var c := new ReplayContext();
    var g := new ReplayGuard();
    firmware, backend := [], [];
    var i := 0;
    while i < |ids|
      invariant 0 <= i <= |ids| && firmware == backend && |firmware| == i
      invariant fresh(c) && fresh(g) && c.Valid() && g.Valid()
      invariant c.accepted == g.accepted == Accepted(ids[..i])
      invariant forall j :: 0 <= j < i ==> firmware[j] == Verdict(ids, j)
      invariant c.accepted != {} ==> c.highestId == g.highestId && c.windowBits == Truncate(g.windowBits)
    {
      assert ids[..i + 1][..i] == ids[..i];
      var a := c.Check(ids[i]);
      var b := g.Check(ids[i]);
      if c.accepted != {} {
        SameWindow(c, g);
      }
      firmware, backend := firmware + [a], backend + [b];
      i := i + 1;
    }
  }
}
