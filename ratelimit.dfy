/**
 * The sliding-window rate limiter of src/server.c: a fixed table of slots
 * chosen by a hash of the client address, each slot holding the address that
 * owns it and a ring of its last 1000 request times. A slot that is empty or
 * owned by another address is reset for the incoming one (eviction, not
 * chaining). The clock reading, the window length, the maximum and the enable
 * flag of the configuration are parameters.
 */
module RateLimit {
  import opened CString

  const TABLE_SIZE: int := 1024
  const BUFFER_SIZE: int := 1000
  /** `char ip[46]` filled by `strncpy(ip, client_ip, sizeof(ip) - 1)`. */
  const IP_CAPACITY: int := 45
  const TWO_TO_32: int := 0x1_0000_0000

  // ---------------------------------------------------------------------
  // ip_hash

  /** A C `char` is signed: bytes 128-255 take part in the hash as negative values. */
  function SignedChar(c: char): int {
    var b := c as int % 256;
    if b < 128 then b else b - 256
  }

  /** The `unsigned int` accumulator of `ip_hash` after reading all of `s`; it wraps at 2^32. */
  function HashAccumulator(s: string): (h: nat)
    ensures h < TWO_TO_32
  {
    if s == [] then 0
    else (HashAccumulator(s[..|s| - 1]) * 31 + SignedChar(s[|s| - 1])) % TWO_TO_32
  }

  /** The table slot an address maps to. */
  function SlotIndex(ip: string): nat {
    HashAccumulator(ip) % TABLE_SIZE
  }

  /** `ip_hash`: the polynomial hash reduced to a slot of the table. */
  method IpHash(ip: string) returns (h: nat)
    ensures h < TABLE_SIZE
    ensures h == SlotIndex(ip)
  {
    var hash := 0;
    var i := 0;
    while i < |ip|
      invariant 0 <= i <= |ip|
      invariant hash == HashAccumulator(ip[..i])
    {
      assert ip[..i + 1][..i] == ip[..i];
      hash := (hash * 31 + SignedChar(ip[i])) % TWO_TO_32;
      i := i + 1;
    }
    assert ip[..|ip|] == ip;
    h := hash % TABLE_SIZE;
  }

  // ---------------------------------------------------------------------
  // One slot, as a value

  /** A `rate_limit_entry_t` without its mutex. */
  datatype Slot = Slot(ip: string, stamps: seq<int>, index: int, count: int)

  /** The bookkeeping every slot keeps: `count < 1000` means the ring has not wrapped yet. */
  predicate SlotValid(s: Slot) {
    && |s.stamps| == BUFFER_SIZE
    && |s.ip| <= IP_CAPACITY
    && 0 <= s.count <= BUFFER_SIZE
    && 0 <= s.index < BUFFER_SIZE
    && (s.count < BUFFER_SIZE ==> s.index == s.count)
  }

  function ZeroStamps(): (z: seq<int>)
    ensures |z| == BUFFER_SIZE
  {
    seq(BUFFER_SIZE, _ => 0)
  }

  /** A slot of the zero-filled table. */
  function ZeroSlot(): (s: Slot)
    ensures SlotValid(s)
  {
    Slot("", ZeroStamps(), 0, 0)
  }

  /** The times a slot holds, oldest first. */
  function Window(s: Slot): (w: seq<int>)
    requires SlotValid(s)
    ensures |w| == s.count
  {
    if s.count < BUFFER_SIZE then s.stamps[..s.count]
    else s.stamps[s.index..] + s.stamps[..s.index]
  }

  /** How many of `ts` are at or after `cutoff`. */
  function CountRecent(ts: seq<int>, cutoff: int): (n: nat)
    ensures n <= |ts|
  {
    if ts == [] then 0
    else CountRecent(ts[..|ts| - 1], cutoff) + (if ts[|ts| - 1] >= cutoff then 1 else 0)
  }

  /** A slot that is empty or holds another address is handed to `ip` with no history. */
  function Claim(s: Slot, ip: string): (c: Slot)
    requires SlotValid(s)
    ensures SlotValid(c)
  {
    if s.count == 0 || s.ip != ip then s.(ip := Truncate(ip, IP_CAPACITY), index := 0, count := 0)
    else s
  }

  /** Writing `now` at the ring's cursor. */
  function Record(s: Slot, now: int): (r: Slot)
    requires SlotValid(s)
    ensures SlotValid(r)
  {
    s.(stamps := s.stamps[s.index := now],
       index := (s.index + 1) % BUFFER_SIZE,
       count := if s.count < BUFFER_SIZE then s.count + 1 else s.count)
  }

  datatype Verdict = Verdict(limited: bool, slot: Slot)

  /**
   * The decision `check_rate_limit` takes on one slot: claim it, count the
   * first `count` stored times that are at or after `now - interval`, refuse
   * at `max` or more, and record `now` otherwise.
   */
  function CheckSlot(s: Slot, ip: string, now: int, interval: int, max: int): (v: Verdict)
    requires SlotValid(s)
    ensures SlotValid(v.slot)
  {
    var c := Claim(s, ip);
    if CountRecent(c.stamps[..c.count], now - interval) >= max then Verdict(true, c)
    else Verdict(false, Record(c, now))
  }

  /** `CheckSlot` as the three steps the table update takes: claim, count the window, record if admitted. */
  lemma CheckSlotSteps(s: Slot, claimed: Slot, ip: string, now: int, interval: int, max: int, valid: nat)
    requires SlotValid(s) && claimed == Claim(s, ip)
    requires valid == CountRecent(Window(claimed), now - interval)
    ensures CheckSlot(s, ip, now, interval, max)
            == if valid >= max then Verdict(true, claimed) else Verdict(false, Record(claimed, now))
  {
    WindowCount(claimed, now - interval);
  }

  /** The last `n` elements of `q`. */
  function LastN(q: seq<int>, n: nat): (r: seq<int>)
    ensures |r| <= n
  {
    if |q| <= n then q else q[|q| - n..]
  }

  // ---------------------------------------------------------------------
  // Properties of one slot

  lemma {:induction false} CountRecentAppend(a: seq<int>, b: seq<int>, cutoff: int)
    ensures CountRecent(a + b, cutoff) == CountRecent(a, cutoff) + CountRecent(b, cutoff)
    decreases |b|
  {
    if b != [] {
      var b' := b[..|b| - 1];
      assert (a + b)[..|a + b| - 1] == a + b';
      CountRecentAppend(a, b', cutoff);
    } else {
      assert a + b == a;
    }
  }

  lemma {:induction false} CountAllRecent(ts: seq<int>, cutoff: int)
    requires forall i :: 0 <= i < |ts| ==> ts[i] >= cutoff
    ensures CountRecent(ts, cutoff) == |ts|
    decreases |ts|
  {
    if ts != [] {
      CountAllRecent(ts[..|ts| - 1], cutoff);
    }
  }

  lemma {:induction false} CountNoneRecent(ts: seq<int>, cutoff: int)
    requires forall i :: 0 <= i < |ts| ==> ts[i] < cutoff
    ensures CountRecent(ts, cutoff) == 0
    decreases |ts|
  {
    if ts != [] {
      CountNoneRecent(ts[..|ts| - 1], cutoff);
    }
  }

  /** Counting the first `count` buffer entries is counting the slot's history. */
  lemma WindowCount(s: Slot, cutoff: int)
    requires SlotValid(s)
    ensures CountRecent(Window(s), cutoff) == CountRecent(s.stamps[..s.count], cutoff)
  {
    if s.count == BUFFER_SIZE {
      var a, b := s.stamps[..s.index], s.stamps[s.index..];
      assert s.stamps[..s.count] == a + b;
      CountRecentAppend(a, b, cutoff);
      CountRecentAppend(b, a, cutoff);
    }
  }

  /** Recording appends to the history and, once 1000 times are held, drops the oldest. */
  lemma RecordWindow(s: Slot, now: int)
    requires SlotValid(s)
    ensures Window(Record(s, now)) == LastN(Window(s) + [now], BUFFER_SIZE)
  {
    var w := Window(s) + [now];
    if s.count < BUFFER_SIZE - 1 {
      RecordGrowing(s, now);
    } else if s.count == BUFFER_SIZE - 1 {
      RecordFilling(s, now);
    } else {
      assert LastN(w, BUFFER_SIZE) == w[1..];
      if s.index + 1 < BUFFER_SIZE {
        RecordFullInside(s, now);
      } else {
        RecordFullWrap(s, now);
      }
    }
  }

  lemma RecordGrowing(s: Slot, now: int)
    requires SlotValid(s) && s.count < BUFFER_SIZE - 1
    ensures Window(Record(s, now)) == Window(s) + [now]
  {
    var r := Record(s, now);
    assert r.stamps[..r.count] == s.stamps[..s.count] + [now];
  }

  lemma RecordFilling(s: Slot, now: int)
    requires SlotValid(s) && s.count == BUFFER_SIZE - 1
    ensures Window(Record(s, now)) == Window(s) + [now]
  {
    var r := Record(s, now);
    assert r.index == 0;
    assert Window(r) == r.stamps[0..] + r.stamps[..0];
    assert r.stamps == s.stamps[..s.count] + [now];
  }

  lemma RecordFullInside(s: Slot, now: int)
    requires SlotValid(s) && s.count == BUFFER_SIZE && s.index + 1 < BUFFER_SIZE
    ensures Window(Record(s, now)) == (Window(s) + [now])[1..]
  {
    var r := Record(s, now);
    var i := s.index;
    assert r.index == i + 1;
    assert r.stamps[i + 1..] == s.stamps[i + 1..];
    assert r.stamps[..i + 1] == s.stamps[..i] + [now];
    assert (Window(s) + [now])[1..] == s.stamps[i + 1..] + s.stamps[..i] + [now];
  }

  lemma RecordFullWrap(s: Slot, now: int)
    requires SlotValid(s) && s.count == BUFFER_SIZE && s.index == BUFFER_SIZE - 1
    ensures Window(Record(s, now)) == (Window(s) + [now])[1..]
  {
    var r := Record(s, now);
    var i := s.index;
    assert r.index == 0;
    assert Window(r) == r.stamps[0..] + r.stamps[..0];
    assert r.stamps == s.stamps[..i] + [now];
    assert (Window(s) + [now])[1..] == s.stamps[i + 1..] + s.stamps[..i] + [now];
  }

  /**
   * A check refuses exactly when at least `max` of the times the address
   * already holds fall inside the window, and a refused check records nothing.
   */
  lemma LimitedIffWindowFull(s: Slot, ip: string, now: int, interval: int, max: int)
    requires SlotValid(s)
    ensures CheckSlot(s, ip, now, interval, max).limited
            <==> CountRecent(Window(Claim(s, ip)), now - interval) >= max
    ensures CheckSlot(s, ip, now, interval, max).limited ==>
            CheckSlot(s, ip, now, interval, max).slot == Claim(s, ip)
  {
    WindowCount(Claim(s, ip), now - interval);
  }

  /** An admitted check appends `now` to the address's history, keeping the latest 1000 times. */
  lemma AdmittedAppends(s: Slot, ip: string, now: int, interval: int, max: int)
    requires SlotValid(s)
    requires !CheckSlot(s, ip, now, interval, max).limited
    ensures var v := CheckSlot(s, ip, now, interval, max);
            v.slot.ip == Claim(s, ip).ip && Window(v.slot) == LastN(Window(Claim(s, ip)) + [now], BUFFER_SIZE)
  {
    RecordWindow(Claim(s, ip), now);
  }

  /**
   * Eviction: a slot that is empty or holds another address is reassigned to
   * `ip` with that address's history discarded, so the first check of `ip` is
   * refused only under a non-positive maximum.
   */
  lemma EvictionDiscardsHistory(s: Slot, ip: string, now: int, interval: int, max: int)
    requires SlotValid(s)
    requires s.count == 0 || s.ip != ip
    ensures var v := CheckSlot(s, ip, now, interval, max);
            && v.slot.ip == Truncate(ip, IP_CAPACITY)
            && (v.limited <==> max <= 0)
            && Window(v.slot) == (if v.limited then [] else [now])
  {
    var c := Claim(s, ip);
    assert c.count == 0 && Window(c) == [];
    LimitedIffWindowFull(s, ip, now, interval, max);
    if max > 0 {
      AdmittedAppends(s, ip, now, interval, max);
      assert [] + [now] == [now];
    }
  }

  /** An address longer than the stored 45 characters never matches its slot, so it never accumulates history. */
  lemma LongAddressNeverTracked(s: Slot, ip: string, now: int, interval: int, max: int)
    requires SlotValid(s)
    requires |ip| > IP_CAPACITY
    ensures CheckSlot(s, ip, now, interval, max).limited <==> max <= 0
  {
    EvictionDiscardsHistory(s, ip, now, interval, max);
  }

  /** Once every time the address holds has left the window, it is admitted again (for a positive maximum). */
  lemma QuietPeriodReadmits(s: Slot, ip: string, now: int, interval: int, max: int)
    requires SlotValid(s)
    requires max > 0
    requires forall i :: 0 <= i < |Window(Claim(s, ip))| ==> Window(Claim(s, ip))[i] < now - interval
    ensures !CheckSlot(s, ip, now, interval, max).limited
  {
    CountNoneRecent(Window(Claim(s, ip)), now - interval);
    LimitedIffWindowFull(s, ip, now, interval, max);
  }

  /** The verdicts of successive checks of one address on one slot. */
  function RunChecks(s: Slot, ip: string, times: seq<int>, interval: int, max: int): (verdicts: seq<bool>)
    requires SlotValid(s)
    ensures |verdicts| == |times|
    decreases |times|
  {
    if times == [] then []
    else
      var v := CheckSlot(s, ip, times[0], interval, max);
      [v.limited] + RunChecks(v.slot, ip, times[1..], interval, max)
  }

  /** Every time in `all` is inside the window of every check time in `times`. */
  /** The slot after the checks at `times`, in sequence. */
  function SlotAfter(s: Slot, ip: string, times: seq<int>, interval: int, max: int): (r: Slot)
    requires SlotValid(s)
    ensures SlotValid(r)
    decreases |times|
  {
    if times == [] then s
    else SlotAfter(CheckSlot(s, ip, times[0], interval, max).slot, ip, times[1..], interval, max)
  }

  /** One more check extends the verdicts by that check's verdict, taken on the slot the run left. */
  lemma {:induction false} RunChecksSnoc(s: Slot, ip: string, times: seq<int>, now: int, interval: int, max: int)
    requires SlotValid(s)
    ensures var v := CheckSlot(SlotAfter(s, ip, times, interval, max), ip, now, interval, max);
            && RunChecks(s, ip, times + [now], interval, max) == RunChecks(s, ip, times, interval, max) + [v.limited]
            && SlotAfter(s, ip, times + [now], interval, max) == v.slot
    decreases |times|
  {
    if times == [] {
      assert [] + [now] == [now];
    } else {
      var v := CheckSlot(s, ip, times[0], interval, max);
      assert (times + [now])[0] == times[0];
      assert (times + [now])[1..] == times[1..] + [now];
      RunChecksSnoc(v.slot, ip, times[1..], now, interval, max);
    }
  }

  /** What a slot holds for the first check: its contents, or zeroes when the table is still to be initialized. */
  function StartSlot(initialized: bool, s: Slot): Slot {
    if initialized then s else ZeroSlot()
  }

  predicate InOneWindow(all: seq<int>, times: seq<int>, interval: int) {
    forall i, j :: 0 <= i < |all| && 0 <= j < |times| ==> all[i] >= times[j] - interval
  }

  lemma {:induction false} BurstFrom(s: Slot, ip: string, prior: seq<int>, times: seq<int>, interval: int, max: int)
    requires SlotValid(s) && |ip| <= IP_CAPACITY
    requires 0 < max <= BUFFER_SIZE
    requires Window(Claim(s, ip)) == prior
    requires |prior| <= max && |prior| + |times| <= max + 1
    requires InOneWindow(prior + times, times, interval)
    ensures forall i :: 0 <= i < |times| ==> RunChecks(s, ip, times, interval, max)[i] == (|prior| + i >= max)
    decreases |times|
  {
    if times != [] {
      var t := times[0];
      BurstStep(s, ip, prior, times, interval, max);
      var v := CheckSlot(s, ip, t, interval, max);
      var rest := RunChecks(v.slot, ip, times[1..], interval, max);
      assert RunChecks(s, ip, times, interval, max) == [v.limited] + rest;
      if !v.limited {
        WindowShift(prior, times, interval);
        BurstFrom(v.slot, ip, prior + [t], times[1..], interval, max);
      }
    }
  }

  /** The first check of a burst: refused exactly at `max`, and otherwise the slot holds one more time. */
  lemma BurstStep(s: Slot, ip: string, prior: seq<int>, times: seq<int>, interval: int, max: int)
    requires SlotValid(s) && |ip| <= IP_CAPACITY
    requires 0 < max <= BUFFER_SIZE
    requires Window(Claim(s, ip)) == prior && |prior| <= max
    requires |times| > 0 && InOneWindow(prior + times, times, interval)
    ensures var v := CheckSlot(s, ip, times[0], interval, max);
            && (v.limited <==> |prior| >= max)
            && (!v.limited ==> SlotValid(v.slot) && Window(Claim(v.slot, ip)) == prior + [times[0]])
  {
    var t := times[0];
    var c := Claim(s, ip);
    forall i | 0 <= i < |prior| ensures prior[i] >= t - interval {
      assert (prior + times)[i] == prior[i];
    }
    CountAllRecent(prior, t - interval);
    LimitedIffWindowFull(s, ip, t, interval, max);
    var v := CheckSlot(s, ip, t, interval, max);
    if !v.limited {
      AdmittedAppends(s, ip, t, interval, max);
      assert Window(v.slot) == prior + [t];
      assert v.slot.ip == ip by {
        if s.count == 0 || s.ip != ip {
          assert c.ip == Truncate(ip, IP_CAPACITY) == ip;
        }
      }
      assert Claim(v.slot, ip) == v.slot;
    }
  }

  /** Moving the first check time to the history keeps every time inside the remaining windows. */
  lemma WindowShift(prior: seq<int>, times: seq<int>, interval: int)
    requires |times| > 0 && InOneWindow(prior + times, times, interval)
    ensures InOneWindow((prior + [times[0]]) + times[1..], times[1..], interval)
  {
    assert (prior + [times[0]]) + times[1..] == prior + times;
    forall i, j | 0 <= i < |prior + times| && 0 <= j < |times[1..]|
      ensures (prior + times)[i] >= times[1..][j] - interval
    {
      assert times[1..][j] == times[j + 1];
    }
  }

  /**
   * With a positive maximum `max` (at most the ring size), a fresh address's
   * first `max` checks inside one window are admitted and the next one is refused.
   */
  lemma FreshAddressBurst(s: Slot, ip: string, times: seq<int>, interval: int, max: int)
    requires SlotValid(s) && |ip| <= IP_CAPACITY
    requires s.count == 0 || s.ip != ip
    requires 0 < max <= BUFFER_SIZE && |times| == max + 1
    requires forall i, j :: 0 <= i < |times| && 0 <= j < |times| ==> times[i] >= times[j] - interval
    ensures forall i :: 0 <= i < max ==> !RunChecks(s, ip, times, interval, max)[i]
    ensures RunChecks(s, ip, times, interval, max)[max]
  {
    assert Window(Claim(s, ip)) == [];
    assert [] + times == times;
    BurstFrom(s, ip, [], times, interval, max);
  }

  /**
   * `table`, marked `initialized` or not, is what the checks of `ip` at
   * `times` leave in a table that was `table0` (marked `init0`): the slot of
   * `ip` took every step and the other slots are as they were, or zero when
   * the first check had to initialize the table.
   */
  predicate Replayed(initialized: bool, table: seq<Slot>, init0: bool, table0: seq<Slot>,
                     ip: string, times: seq<int>, interval: int, max: int)
    requires |table| == TABLE_SIZE && |table0| == TABLE_SIZE
    requires forall g :: 0 <= g < TABLE_SIZE ==> SlotValid(table0[g])
  {
    if times == [] then initialized == init0 && table == table0
    else
      && initialized
      && forall g :: 0 <= g < TABLE_SIZE ==>
           table[g] == if g == SlotIndex(ip) then SlotAfter(StartSlot(init0, table0[g]), ip, times, interval, max)
                       else StartSlot(init0, table0[g])
  }

  /**
   * One more check of `ip` at `now`, taken on the table as `check_rate_limit`
   * does (the slot of `ip` takes `CheckSlot`, the others are kept or zeroed),
   * extends the run by `now` and its verdict.
   */
  lemma ExtendRun(initialized: bool, table: seq<Slot>, limited: bool, after: seq<Slot>,
                  init0: bool, table0: seq<Slot>, ip: string, times: seq<int>, now: int, interval: int, max: int)
    requires |table| == TABLE_SIZE && |after| == TABLE_SIZE && |table0| == TABLE_SIZE
    requires forall g :: 0 <= g < TABLE_SIZE ==> SlotValid(table0[g]) && SlotValid(table[g])
    requires Replayed(initialized, table, init0, table0, ip, times, interval, max)
    requires Verdict(limited, after[SlotIndex(ip)])
             == CheckSlot(StartSlot(initialized, table[SlotIndex(ip)]), ip, now, interval, max)
    requires forall g :: 0 <= g < TABLE_SIZE && g != SlotIndex(ip) ==> after[g] == StartSlot(initialized, table[g])
    ensures Replayed(true, after, init0, table0, ip, times + [now], interval, max)
    ensures RunChecks(StartSlot(init0, table0[SlotIndex(ip)]), ip, times + [now], interval, max)
            == RunChecks(StartSlot(init0, table0[SlotIndex(ip)]), ip, times, interval, max) + [limited]
  {
    var h := SlotIndex(ip);
    var start := StartSlot(init0, table0[h]);
    RunChecksSnoc(start, ip, times, now, interval, max);
    assert StartSlot(initialized, table[h]) == SlotAfter(start, ip, times, interval, max);
    forall g | 0 <= g < TABLE_SIZE && g != h
      ensures after[g] == StartSlot(init0, table0[g])
    {
      assert StartSlot(initialized, table[g]) == StartSlot(init0, table0[g]);
    }
  }

  // ---------------------------------------------------------------------
  // The table

  /**
   * `rate_limit_table` and `rate_limit_initialized`. Slot `h` is row `h` of
   * `stamps` together with `ips[h]`, `indices[h]` and `counts[h]`.
   */
  class RateLimiter {
    var initialized: bool
    const ips: array<string>
    const stamps: array2<int>
    const indices: array<int>
    const counts: array<int>

    ghost predicate Valid()
      reads ips, indices, counts
    {
      && ips.Length == TABLE_SIZE
      && stamps.Length0 == TABLE_SIZE && stamps.Length1 == BUFFER_SIZE
      && indices.Length == TABLE_SIZE && counts.Length == TABLE_SIZE
      && indices != counts
      && forall h :: 0 <= h < TABLE_SIZE ==>
           && |ips[h]| <= IP_CAPACITY
           && 0 <= counts[h] <= BUFFER_SIZE
           && 0 <= indices[h] < BUFFER_SIZE
           && (counts[h] < BUFFER_SIZE ==> indices[h] == counts[h])
    }

    /** The timestamps of slot `h`. */
    function Row(h: int): (r: seq<int>)
      reads stamps
      requires 0 <= h < stamps.Length0
      ensures |r| == stamps.Length1
      ensures forall j :: 0 <= j < stamps.Length1 ==> r[j] == stamps[h, j]
    {
      seq(stamps.Length1, j requires 0 <= j < stamps.Length1 reads stamps => stamps[h, j])
    }

    /** Slot `h` as a value. */
    function SlotAt(h: int): (s: Slot)
      reads ips, stamps, indices, counts
      requires Valid() && 0 <= h < TABLE_SIZE
      ensures SlotValid(s)
    {
      Slot(ips[h], Row(h), indices[h], counts[h])
    }

    /** The whole table as a value. */
    ghost function Slots(): (t: seq<Slot>)
      reads ips, stamps, indices, counts
      requires Valid()
      ensures |t| == TABLE_SIZE
    {
      seq(TABLE_SIZE, g requires 0 <= g < TABLE_SIZE && Valid() reads ips, stamps, indices, counts => SlotAt(g))
    }

    /** The process starts with a zero-filled table, not yet marked initialized. */
    constructor ()
      ensures Valid() && !initialized
      ensures forall h :: 0 <= h < TABLE_SIZE ==> SlotAt(h) == ZeroSlot()
    {
      initialized := false;
      ips := new string[TABLE_SIZE](_ => "");
      stamps := new int[TABLE_SIZE, BUFFER_SIZE]((_, _) => 0);
      indices := new int[TABLE_SIZE](_ => 0);
      counts := new int[TABLE_SIZE](_ => 0);
      new;
      forall h | 0 <= h < TABLE_SIZE ensures SlotAt(h) == ZeroSlot() {
        assert Row(h) == ZeroStamps();
      }
    }

    /** `init_rate_limiting`: zero the whole table once; later calls do nothing. */
    method InitRateLimiting()
      requires Valid()
      modifies this, ips, stamps, indices, counts
      ensures Valid() && initialized
      ensures old(initialized) ==> unchanged(ips, stamps, indices, counts)
      ensures !old(initialized) ==> forall h :: 0 <= h < TABLE_SIZE ==> SlotAt(h) == ZeroSlot()
    {
      if initialized {
        return;
      }
      var h := 0;
      while h < TABLE_SIZE
        invariant 0 <= h <= TABLE_SIZE
        invariant Valid()
        invariant forall g :: 0 <= g < h ==> ips[g] == "" && indices[g] == 0 && counts[g] == 0
        invariant forall g, j :: 0 <= g < h && 0 <= j < BUFFER_SIZE ==> stamps[g, j] == 0
      {
        ips[h] := "";
        indices[h] := 0;
        counts[h] := 0;
        var j := 0;
        while j < BUFFER_SIZE
          invariant 0 <= j <= BUFFER_SIZE
          invariant Valid()
          invariant forall g :: 0 <= g <= h ==> ips[g] == "" && indices[g] == 0 && counts[g] == 0
          invariant forall g, k :: 0 <= g < h && 0 <= k < BUFFER_SIZE ==> stamps[g, k] == 0
          invariant forall k :: 0 <= k < j ==> stamps[h, k] == 0
        {
          stamps[h, j] := 0;
          j := j + 1;
        }
        h := h + 1;
      }
      initialized := true;
      forall g | 0 <= g < TABLE_SIZE ensures SlotAt(g) == ZeroSlot() {
        assert Row(g) == ZeroStamps();
      }
    }

    /** The reset step of `check_rate_limit`: slot `h` is handed to `ip` unless `ip` already owns it. */
    method ClaimSlot(h: int, ip: string)
      requires Valid() && 0 <= h < TABLE_SIZE
      modifies ips, indices, counts
      ensures Valid() && unchanged(stamps)
      ensures SlotAt(h) == Claim(old(SlotAt(h)), ip)
      ensures forall g :: 0 <= g < TABLE_SIZE && g != h ==> SlotAt(g) == old(SlotAt(g))
    {
      if counts[h] == 0 || ips[h] != ip {
        ips[h] := Truncate(ip, IP_CAPACITY);
        counts[h] := 0;
        indices[h] := 0;
      }
    }

    /** The counting loop of `check_rate_limit`: how many of the slot's times are at or after `cutoff`. */
    method CountValid(h: int, cutoff: int) returns (valid: nat)
      requires Valid() && 0 <= h < TABLE_SIZE
      ensures valid == CountRecent(Window(SlotAt(h)), cutoff)
    {
      var i := 0;
      valid := 0;
      while i < counts[h]
        invariant 0 <= i <= counts[h]
        invariant valid == CountRecent(Row(h)[..i], cutoff)
      {
        assert Row(h)[..i + 1][..i] == Row(h)[..i];
        if stamps[h, i] >= cutoff {
          valid := valid + 1;
        }
        i := i + 1;
      }
      WindowCount(SlotAt(h), cutoff);
    }

    /** The admitting step of `check_rate_limit`: store `now` at the cursor and advance the ring. */
    method RecordAt(h: int, now: int)
      requires Valid() && 0 <= h < TABLE_SIZE
      modifies stamps, indices, counts
      ensures Valid() && unchanged(ips)
      ensures SlotAt(h) == Record(old(SlotAt(h)), now)
      ensures forall g :: 0 <= g < TABLE_SIZE && g != h ==> SlotAt(g) == old(SlotAt(g))
    {
      var at := indices[h];
      ghost var row := Row(h);
      stamps[h, at] := now;
      indices[h] := (at + 1) % BUFFER_SIZE;
      if counts[h] < BUFFER_SIZE {
        counts[h] := counts[h] + 1;
      }
      assert Row(h) == row[at := now];
      forall g | 0 <= g < TABLE_SIZE && g != h ensures Row(g) == old(Row(g)) {
      }
    }

    /**
     * `check_rate_limit`: returns whether the request is refused. Disabled,
     * it admits and touches nothing; enabled, slot `SlotIndex(ip)` of the
     * (lazily zeroed) table takes the step `CheckSlot` describes and every
     * other slot keeps its contents.
     */
    method Check(ip: string, now: int, enabled: bool, interval: int, max: int) returns (limited: bool)
      requires Valid()
      modifies this, ips, stamps, indices, counts
      ensures Valid()
      ensures !enabled ==> !limited && initialized == old(initialized) && unchanged(ips, stamps, indices, counts)
      ensures enabled ==> initialized
      ensures enabled ==>
                var h := SlotIndex(ip);
                var before := if old(initialized) then old(SlotAt(h)) else ZeroSlot();
                Verdict(limited, SlotAt(h)) == CheckSlot(before, ip, now, interval, max)
      ensures enabled ==>
                forall g :: 0 <= g < TABLE_SIZE && g != SlotIndex(ip) ==>
                  SlotAt(g) == if old(initialized) then old(SlotAt(g)) else ZeroSlot()
    {
      if !enabled {
        return false;
      }
      if !initialized {
        InitRateLimiting();
      }
      limited := CheckTable(ip, now, interval, max);
    }

    /** `check_rate_limit` past its enable test and lazy initialization. */
    method CheckTable(ip: string, now: int, interval: int, max: int) returns (limited: bool)
      requires Valid()
      modifies ips, stamps, indices, counts
      ensures Valid()
      ensures Verdict(limited, SlotAt(SlotIndex(ip))) == CheckSlot(old(SlotAt(SlotIndex(ip))), ip, now, interval, max)
      ensures forall g :: 0 <= g < TABLE_SIZE && g != SlotIndex(ip) ==> SlotAt(g) == old(SlotAt(g))
    {
      var h := IpHash(ip);
      ghost var before := SlotAt(h);
      ClaimSlot(h, ip);
      ghost var claimed := SlotAt(h);
      assert claimed == Claim(before, ip);
      var valid := CountValid(h, now - interval);
      CheckSlotSteps(before, claimed, ip, now, interval, max, valid);
      limited := valid >= max;
      if !limited {
        RecordAt(h, now);
      }
    }
  }
}
