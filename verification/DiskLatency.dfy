/** Seek, rotation and the track buffer of the simulated disk (machine/disk.cc). */
module DiskLatency {
  import opened Basics

  const SECTORS_PER_TRACK := 32
  const ROTATION_TIME := 500
  const SEEK_TIME := 500

  type SectorNumber = s: int | 0 <= s < 1024

  // ----- where the head is

  /** The sector offset that begins to pass under the head at a sector boundary t. */
  function OffsetAt(t: nat): nat {
    t / ROTATION_TIME % SECTORS_PER_TRACK
  }

  /** The head begins to pass over the given offset at time t. */
  predicate PassBegins(t: nat, offset: nat) {
    t % ROTATION_TIME == 0 && OffsetAt(t) == offset
  }

  ghost predicate FirstPass(t: nat, from: nat, offset: nat) {
    from <= t && PassBegins(t, offset) && forall u :: from <= u < t ==> !PassBegins(u, offset)
  }

  /** Between `from` and `until` the head has passed over the whole sector at the given offset. */
  ghost predicate Passed(from: nat, until: nat, offset: nat) {
    exists t :: from <= t && t + ROTATION_TIME <= until && PassBegins(t, offset)
  }

  // ----- the code

  predicate SameTrack(a: SectorNumber, b: SectorNumber) {
    a / SECTORS_PER_TRACK == b / SECTORS_PER_TRACK
  }

  function Seek(lastSector: SectorNumber, newSector: SectorNumber): nat {
    Abs(newSector / SECTORS_PER_TRACK - lastSector / SECTORS_PER_TRACK) * SEEK_TIME
  }

  /** A seek takes no time exactly on the same track, 500 ticks to a neighbouring one, as long there as back, and
      over tracks in between the times add up. */
  lemma SeekByTracks(a: SectorNumber, b: SectorNumber, c: SectorNumber)
    ensures Seek(a, b) == 0 <==> SameTrack(a, b)
    ensures Seek(a, b) == Seek(b, a)
    ensures b / SECTORS_PER_TRACK == a / SECTORS_PER_TRACK + 1 ==> Seek(a, b) == 500
    ensures a / SECTORS_PER_TRACK <= b / SECTORS_PER_TRACK <= c / SECTORS_PER_TRACK ==> Seek(a, c) == Seek(a, b) + Seek(b, c)
  {
  }

  /** The wait from time t to the next sector boundary. */
  function Rotation(t: nat): nat {
    var over := t % ROTATION_TIME;
    if over > 0 then ROTATION_TIME - over else 0
  }

  function ModuloDiff(to: nat, from: nat): nat {
    (to % SECTORS_PER_TRACK - from % SECTORS_PER_TRACK + SECTORS_PER_TRACK) % SECTORS_PER_TRACK
  }

  predicate Hit(now: nat, lastSector: SectorNumber, bufferInit: nat, newSector: SectorNumber, writing: bool)
    requires bufferInit <= now
  {
    && !writing && Seek(lastSector, newSector) == 0
    && (now + Rotation(now) - bufferInit) / ROTATION_TIME > ModuloDiff(newSector, bufferInit / ROTATION_TIME)
  }

  function Latency(now: nat, lastSector: SectorNumber, bufferInit: nat, newSector: SectorNumber, writing: bool): nat
    requires bufferInit <= now
  {
    if Hit(now, lastSector, bufferInit, newSector, writing) then ROTATION_TIME
    else
      var seek := Seek(lastSector, newSector);
      var rotation := Rotation(now + seek);
      var timeAfter := now + seek + rotation;
      seek + rotation + ModuloDiff(newSector, timeAfter / ROTATION_TIME) * ROTATION_TIME + ROTATION_TIME
  }

  // ----- what a latency means

  lemma ModuloDiffReaches(to: nat, from: nat, d: nat)
    ensures d < SECTORS_PER_TRACK ==>
      ((from + d) % SECTORS_PER_TRACK == to % SECTORS_PER_TRACK <==> d == ModuloDiff(to, from))
    ensures ModuloDiff(to, from) < SECTORS_PER_TRACK
  {
    if d < SECTORS_PER_TRACK {
      AddedOffset(from, d);
    }
    WrappedDifference(to % SECTORS_PER_TRACK, from % SECTORS_PER_TRACK);
  }

  lemma AddedOffset(from: nat, d: nat)
    requires d < SECTORS_PER_TRACK
    ensures var s := from % SECTORS_PER_TRACK + d;
      (from + d) % SECTORS_PER_TRACK == if s < SECTORS_PER_TRACK then s else s - SECTORS_PER_TRACK
  {
    assert from == from / SECTORS_PER_TRACK * SECTORS_PER_TRACK + from % SECTORS_PER_TRACK;
  }

  lemma WrappedDifference(to: nat, from: nat)
    requires to < SECTORS_PER_TRACK && from < SECTORS_PER_TRACK
    ensures (to - from + SECTORS_PER_TRACK) % SECTORS_PER_TRACK
         == if to < from then to - from + SECTORS_PER_TRACK else to - from
  {
  }

  /** From a sector boundary on, the head first reaches an offset after ModuloDiff sectors. */
  lemma FirstPassFromBoundary(t: nat, newSector: SectorNumber)
    requires t % ROTATION_TIME == 0
    ensures FirstPass(t + ModuloDiff(newSector, t / ROTATION_TIME) * ROTATION_TIME, t, newSector % SECTORS_PER_TRACK)
  {
    var b, d := t / ROTATION_TIME, ModuloDiff(newSector, t / ROTATION_TIME);
    ModuloDiffReaches(newSector, b, d);
    assert (t + d * ROTATION_TIME) / ROTATION_TIME == b + d;
    forall u | t <= u < t + d * ROTATION_TIME && u % ROTATION_TIME == 0
      ensures OffsetAt(u) != newSector % SECTORS_PER_TRACK
    {
      var e := u / ROTATION_TIME - b;
      assert 0 <= e < d;
      ModuloDiffReaches(newSector, b, e);
    }
  }

  lemma NoBoundaryBefore(t: nat, u: nat)
    requires t <= u < t + Rotation(t)
    ensures u % ROTATION_TIME != 0
  {
  }

  /** Unless the track buffer has it, a request ends one sector time after the head first begins
      to pass over the sector once the seek is done. */
  lemma LatencyIsFirstPass(now: nat, lastSector: SectorNumber, bufferInit: nat, newSector: SectorNumber, writing: bool)
    returns (pass: nat)
    requires bufferInit <= now && !Hit(now, lastSector, bufferInit, newSector, writing)
    ensures FirstPass(pass, now + Seek(lastSector, newSector), newSector % SECTORS_PER_TRACK)
    ensures now + Latency(now, lastSector, bufferInit, newSector, writing) == pass + ROTATION_TIME
  {
    var arrival := now + Seek(lastSector, newSector);
    var boundary := arrival + Rotation(arrival);
    FirstPassFromBoundary(boundary, newSector);
    pass := boundary + ModuloDiff(newSector, boundary / ROTATION_TIME) * ROTATION_TIME;
    forall u | arrival <= u < pass
      ensures !PassBegins(u, newSector % SECTORS_PER_TRACK)
    {
      if u < boundary {
        NoBoundaryBefore(arrival, u);
      }
    }
  }

  /** The buffer test counts whole passes: it asks whether the head has passed over the sector since
      the buffer began to fill. */
  lemma BufferTest(bufferInit: nat, until: nat, newSector: SectorNumber)
    requires bufferInit % ROTATION_TIME == 0 && bufferInit <= until
    ensures Passed(bufferInit, until, newSector % SECTORS_PER_TRACK)
       <==> (until - bufferInit) / ROTATION_TIME > ModuloDiff(newSector, bufferInit / ROTATION_TIME)
  {
    FirstPassFromBoundary(bufferInit, newSector);
    var first := bufferInit + ModuloDiff(newSector, bufferInit / ROTATION_TIME) * ROTATION_TIME;
    assert first + ROTATION_TIME <= until <==> Passed(bufferInit, until, newSector % SECTORS_PER_TRACK);
  }

  /** A read is served from the buffer exactly when it is on the current track and the head has
      passed over the whole sector, since it arrived there, by the next sector boundary. */
  lemma HitMeansPassed(now: nat, lastSector: SectorNumber, bufferInit: nat, newSector: SectorNumber, writing: bool)
    requires bufferInit % ROTATION_TIME == 0 && bufferInit <= now
    ensures Hit(now, lastSector, bufferInit, newSector, writing)
       <==> !writing && SameTrack(lastSector, newSector)
            && Passed(bufferInit, now + Rotation(now), newSector % SECTORS_PER_TRACK)
  {
    BufferTest(bufferInit, now + Rotation(now), newSector);
    SeekByTracks(lastSector, newSector, newSector);
  }

  /** That the head has passed over it already at the time of the request is not promised: the
      sector may still be under the head. */
  lemma HitWhileStillPassing()
    ensures Hit(1, 0, 0, 0, false) && !Passed(0, 1, 0)
  {
  }

  /** It has passed already exactly when the test also succeeds without rounding the time up. */
  lemma HitAlreadyPassed(now: nat, lastSector: SectorNumber, bufferInit: nat, newSector: SectorNumber)
    requires bufferInit % ROTATION_TIME == 0 && bufferInit <= now
    requires Hit(now, lastSector, bufferInit, newSector, false)
    ensures Passed(bufferInit, now, newSector % SECTORS_PER_TRACK)
       <==> now % ROTATION_TIME == 0
            || (now - bufferInit) / ROTATION_TIME != ModuloDiff(newSector, bufferInit / ROTATION_TIME)
  {
    BufferTest(bufferInit, now, newSector);
  }

  lemma LatencyBounds(now: nat, lastSector: SectorNumber, bufferInit: nat, newSector: SectorNumber, writing: bool)
    requires bufferInit <= now
    ensures 500 <= Latency(now, lastSector, bufferInit, newSector, writing) <= 31999
  {
    assert Seek(lastSector, newSector) <= 31 * SEEK_TIME;
  }

  lemma BoundaryReached(t: nat)
    ensures (t + Rotation(t)) % ROTATION_TIME == 0
  {
    assert t == t / ROTATION_TIME * ROTATION_TIME + t % ROTATION_TIME;
  }

  /** The head is on its track, at a boundary, before the request is done. */
  lemma ArrivesInTime(now: nat, lastSector: SectorNumber, bufferInit: nat, newSector: SectorNumber, writing: bool)
    requires bufferInit <= now
    ensures var arrival := now + Seek(lastSector, newSector);
      && (arrival + Rotation(arrival)) % ROTATION_TIME == 0
      && (Seek(lastSector, newSector) != 0 ==>
           arrival + Rotation(arrival) <= now + Latency(now, lastSector, bufferInit, newSector, writing))
  {
    BoundaryReached(now + Seek(lastSector, newSector));
  }

  // ----- the device over any sequence of requests

  datatype Request = Request(at: nat, sector: SectorNumber, writing: bool)

  class Disk {
    var lastSector: SectorNumber
    var bufferInit: nat
    /** When the request in progress will be done. */
    var busyUntil: nat

    /** By the time the next request is allowed, the head is on its track and the buffer is filling. */
    ghost predicate Valid()
      reads this
    {
      bufferInit % ROTATION_TIME == 0 && bufferInit <= busyUntil
    }

    constructor ()
      ensures Valid() && lastSector == 0 && bufferInit == 0 && busyUntil == 0
    {
      lastSector, bufferInit, busyUntil := 0, 0, 0;
    }

    method ComputeLatency(now: nat, newSector: SectorNumber, writing: bool) returns (ticks: nat)
      requires Valid() && busyUntil <= now
      ensures ticks == Latency(now, lastSector, bufferInit, newSector, writing)
    {
      var seek := Seek(lastSector, newSector);
      var rotation := Rotation(now + seek);
      var timeAfter := now + seek + rotation;
      if !writing && seek == 0
         && (timeAfter - bufferInit) / ROTATION_TIME > ModuloDiff(newSector, bufferInit / ROTATION_TIME) {
        return ROTATION_TIME;
      }
      rotation := rotation + ModuloDiff(newSector, timeAfter / ROTATION_TIME) * ROTATION_TIME;
      return seek + rotation + ROTATION_TIME;
    }

    method UpdateLast(now: nat, newSector: SectorNumber)
      modifies this`lastSector, this`bufferInit
      ensures lastSector == newSector
      ensures bufferInit == if SameTrack(old(lastSector), newSector) then old(bufferInit)
        else now + Seek(old(lastSector), newSector) + Rotation(now + Seek(old(lastSector), newSector))
    {
      var seek := Seek(lastSector, newSector);
      SeekByTracks(lastSector, newSector, newSector);
      if seek != 0 {
        bufferInit := now + seek + Rotation(now + seek);
      }
      lastSector := newSector;
    }

    /** ReadRequest or WriteRequest: only one request at a time. */
    method Submit(r: Request) returns (ticks: nat)
      requires Valid() && busyUntil <= r.at
      modifies this
      ensures Valid() && lastSector == r.sector && busyUntil == r.at + ticks
      ensures ticks == Latency(r.at, old(lastSector), old(bufferInit), r.sector, r.writing)
      ensures bufferInit == if SameTrack(old(lastSector), r.sector) then old(bufferInit)
        else r.at + Seek(old(lastSector), r.sector) + Rotation(r.at + Seek(old(lastSector), r.sector))
      ensures 500 <= ticks <= 31999
    {
      LatencyBounds(r.at, lastSector, bufferInit, r.sector, r.writing);
      SeekByTracks(lastSector, r.sector, r.sector);
      ArrivesInTime(r.at, lastSector, bufferInit, r.sector, r.writing);
      ticks := ComputeLatency(r.at, r.sector, r.writing);
      UpdateLast(r.at, r.sector);
      busyUntil := r.at + ticks;
    }
  }
}
