/** The upgrade receiver: a capture thread copies frames into twelve slots and queues the slot
    numbers, a saving thread takes slot numbers and appends the slots' payloads to the file. */
module Upgrade {
  import opened Common
  import opened RingQueue

  type Frame = seq<byte>

  const SLOTS := 12
  const CAPACITY := 11
  const FRAME := 102448
  const HEADER := 48
  const PAYLOAD := FRAME - HEADER
  const SIZE_AT := 14

  ghost predicate Frames(frames: seq<Frame>) {
    forall i :: 0 <= i < |frames| ==> |frames[i]| == FRAME
  }

  /** x shifted left by k bytes. */
  function Shifted(x: nat, k: nat): (r: nat) {
    if k == 0 then x else 256 * Shifted(x, k - 1)
  }

  /** The number whose bytes from the k-th up to the seventh stand in the frame's header. */
  function SizeFrom(f: Frame, k: nat): (r: nat)
    requires |f| == FRAME && k <= 8
    decreases 8 - k
  {
    if k == 8 then 0 else Shifted(f[SIZE_AT + k], k) + SizeFrom(f, k + 1)
  }

  function SizeOf(f: Frame): (r: nat)
    requires |f| == FRAME
  {
    SizeFrom(f, 0)
  }

  /** Bytes 14 to 21 of the frame are those of the size, least significant first. */
  ghost predicate SizeHeader(f: Frame, size: nat)
    requires |f| == 102448
  {
    var q1 := size / 256;
    var q2 := q1 / 256;
    var q3 := q2 / 256;
    var q4 := q3 / 256;
    var q5 := q4 / 256;
    var q6 := q5 / 256;
    var q7 := q6 / 256;
    && f[14] == size % 256 && f[15] == q1 % 256 && f[16] == q2 % 256 && f[17] == q3 % 256
    && f[18] == q4 % 256 && f[19] == q5 % 256 && f[20] == q6 % 256 && f[21] == q7
  }

  lemma {:induction false} ShiftedSum(x: nat, y: nat, k: nat)
    ensures Shifted(x, k) + Shifted(y, k + 1) == Shifted(x + 256 * y, k)
  {
    if k > 0 { ShiftedSum(x, y, k - 1); }
  }

  lemma SizeStep(f: Frame, k: nat, q: nat)
    requires |f| == FRAME && k < 8 && f[SIZE_AT + k] == q % 256 && SizeFrom(f, k + 1) == Shifted(q / 256, k + 1)
    ensures SizeFrom(f, k) == Shifted(q, k)
  {
    ShiftedSum(q % 256, q / 256, k);
  }

  /** The size is read back from its header. */
  lemma SizeReadBack(f: Frame, size: nat)
    requires |f| == 102448 && SizeHeader(f, size)
    ensures SizeOf(f) == size
  {
    var q1 := size / 256;
    var q2 := q1 / 256;
    var q3 := q2 / 256;
    var q4 := q3 / 256;
    var q5 := q4 / 256;
    var q6 := q5 / 256;
    var q7 := q6 / 256;
    assert SizeFrom(f, 8) == 0 == Shifted(q7 / 256, 8);
    SizeStep(f, 7, q7);
    SizeStep(f, 6, q6);
    SizeStep(f, 5, q5);
    SizeStep(f, 4, q4);
    SizeStep(f, 3, q3);
    SizeStep(f, 2, q2);
    SizeStep(f, 1, q1);
    SizeStep(f, 0, size);
  }

  function Payload(f: Frame): (p: seq<byte>)
    requires |f| == FRAME
    ensures |p| == PAYLOAD
  {
    f[HEADER..]
  }

  // ---------------------------------------------------------------- the two threads

  /** `counter` frames have been queued; `filling` says that one more has been copied but not queued. */
  datatype State = State(counter: nat, filling: bool, queue: World<int>, slots: seq<Frame>,
                         taken: Option<int>, rest: int, file: seq<byte>, saved: nat)

  datatype Action = Fill | Publish | Take | Save

  ghost function Initial(slots: seq<Frame>): (r: State) {
    State(0, false, Start(), slots, None, 0, [], 0)
  }

  ghost predicate Enabled(s: State, a: Action, frames: seq<Frame>) {
    match a
    case Fill => !s.filling && s.counter < |frames|
    case Publish => s.filling
    case Take => s.taken.None? && |s.queue.rpos| > 0 && s.queue.rpos[0] != EMPTY
    case Save => s.taken.Some?
  }

  /** One atomic action of one of the threads; an index outside its buffer leaves the state alone. */
  ghost function Act(s: State, a: Action, frames: seq<Frame>): (r: State)
    requires Frames(frames) && |s.slots| == SLOTS && Frames(s.slots)
  {
    match a
    case Fill =>
      if s.counter < |frames| then
        s.(slots := s.slots[s.counter % SLOTS := frames[s.counter]], filling := true,
           rest := if s.counter == 0 then s.rest + SizeOf(frames[0]) else s.rest)
      else s
    case Publish =>
      s.(queue := Step(s.queue, Wrote(s.counter % SLOTS), CAPACITY), counter := s.counter + 1, filling := false)
    case Take =>
      if |s.queue.rpos| > 0 && 0 <= s.queue.rpos[0] < |s.queue.queue| then
        s.(taken := Some(s.queue.queue[s.queue.rpos[0]]), queue := Step(s.queue, Reads(0), CAPACITY))
      else s
    case Save =>
      if s.taken.Some? && 0 <= s.taken.value < SLOTS && s.rest >= 0 then
        var p := Payload(s.slots[s.taken.value]);
        if s.rest >= PAYLOAD then s.(file := s.file + p, rest := s.rest - PAYLOAD, taken := None, saved := s.saved + 1)
        else s.(file := s.file + p[..s.rest], taken := None, saved := s.saved + 1)
      else s
  }

  /** The saver is quick enough for this action: no slot is refilled before it has been saved, and
      no queued slot number is pushed out before it has been taken. */
  ghost predicate InTime(s: State, a: Action) {
    match a
    case Fill => s.counter - s.saved < SLOTS
    case Publish => |s.queue.logs| > 0 && s.counter + 1 - |s.queue.logs[0]| <= CAPACITY
    case _ => true
  }

  // ---------------------------------------------------------------- slots never collide

  /** The queue holds the slots of the latest frames. */
  ghost predicate QueueInv(s: State) {
    && Inv(s.queue, CAPACITY) && |s.queue.written| == s.counter
    && forall i :: 0 <= i < s.counter ==> s.queue.written[i] == i % SLOTS
  }

  lemma QueuedSlot(s: State, p: nat)
    requires QueueInv(s) && p < |s.queue.queue|
    ensures p < s.counter && s.queue.queue[p] == (s.counter - 1 - p) % SLOTS
  {
    var r := Reverse(s.queue.queue);
    var n := s.counter - 1 - p;
    assert s.queue.written[n] == r[n - |s.queue.released|] == s.queue.queue[p];
  }

  lemma CurrentSlotFree(s: State)
    requires QueueInv(s)
    ensures s.counter % SLOTS !in s.queue.queue
  {
    forall p | 0 <= p < |s.queue.queue| ensures s.queue.queue[p] != s.counter % SLOTS {
      QueuedSlot(s, p);
    }
  }

  lemma ActKeepsQueueInv(s: State, a: Action, frames: seq<Frame>)
    requires Frames(frames) && |s.slots| == SLOTS && Frames(s.slots)
    requires QueueInv(s)
    ensures QueueInv(Act(s, a, frames))
  {
    match a
    case Publish => StepKeepsInv(s.queue, Wrote(s.counter % SLOTS), CAPACITY);
    case Take => StepKeepsInv(s.queue, Reads(0), CAPACITY);
    case _ =>
  }

  ghost function After(actions: seq<Action>, slots: seq<Frame>, frames: seq<Frame>): (s: State)
    requires Frames(frames) && |slots| == SLOTS && Frames(slots)
    ensures |s.slots| == SLOTS && Frames(s.slots)
  {
    if actions == [] then Initial(slots)
    else Act(After(actions[..|actions| - 1], slots, frames), actions[|actions| - 1], frames)
  }

  lemma {:induction false} AlwaysQueueInv(actions: seq<Action>, slots: seq<Frame>, frames: seq<Frame>)
    requires Frames(frames) && |slots| == SLOTS && Frames(slots)
    ensures QueueInv(After(actions, slots, frames))
  {
    if actions != [] {
      AlwaysQueueInv(actions[..|actions| - 1], slots, frames);
      ActKeepsQueueInv(After(actions[..|actions| - 1], slots, frames), actions[|actions| - 1], frames);
    }
  }

  /** In every run, however slow the saver is: the slot of the frame being filled is not queued, and
      what the saver takes during the filling is another slot. */
  lemma FilledSlotNotQueued(actions: seq<Action>, slots: seq<Frame>, frames: seq<Frame>)
    requires Frames(frames) && |slots| == SLOTS && Frames(slots)
    ensures var s := After(actions, slots, frames);
      && s.counter % 12 !in s.queue.queue
      && (Enabled(s, Take, frames) ==> Act(s, Take, frames).taken.Some?
                                       && Act(s, Take, frames).taken != Some(s.counter % 12))
  {
    var s := After(actions, slots, frames);
    AlwaysQueueInv(actions, slots, frames);
    CurrentSlotFree(s);
    assert ReaderInv(s.queue, 0);
  }

  // ---------------------------------------------------------------- the file

  /** What s saves leave in the file: full payloads while they are all wanted, then the first
      `size % PAYLOAD` bytes of the payload of each further frame. */
  ghost function Saved(frames: seq<Frame>, size: nat, s: nat): (file: seq<byte>)
    requires Frames(frames) && s <= |frames|
  {
    if s == 0 then []
    else Saved(frames, size, s - 1)
         + if s * PAYLOAD <= size then Payload(frames[s - 1]) else Payload(frames[s - 1])[..size % PAYLOAD]
  }

  ghost function RestAfter(size: nat, s: nat): (r: nat) {
    if s * PAYLOAD <= size then size - s * PAYLOAD else size % PAYLOAD
  }

  /** The payloads of the first k frames. */
  ghost function Stream(frames: seq<Frame>, k: nat): (r: seq<byte>)
    requires Frames(frames) && k <= |frames|
    ensures |r| == k * PAYLOAD
  {
    if k == 0 then [] else Stream(frames, k - 1) + Payload(frames[k - 1])
  }

  /** How many frames a file of this size is sent in. */
  function Needed(size: nat): (r: nat) { (size + PAYLOAD - 1) / PAYLOAD }

  /** The file that was sent. */
  ghost function Original(frames: seq<Frame>, size: nat): (r: seq<byte>)
    requires Frames(frames) && Needed(size) <= |frames|
    ensures |r| == size
  {
    Stream(frames, Needed(size))[..size]
  }

  lemma {:induction false} SavedWhole(frames: seq<Frame>, size: nat, s: nat)
    requires Frames(frames) && s <= |frames| && s * PAYLOAD <= size
    ensures Saved(frames, size, s) == Stream(frames, s)
  {
    if s > 0 { SavedWhole(frames, size, s - 1); }
  }

  lemma TakeOfSum<T>(a: seq<T>, b: seq<T>, k: nat)
    requires |a| <= k <= |a| + |b|
    ensures (a + b)[..k] == a + b[..k - |a|]
  {
  }

  lemma NeededCases(size: nat)
    ensures var n := Needed(size);
      if n * PAYLOAD <= size then n * PAYLOAD == size
      else n > 0 && (n - 1) * PAYLOAD <= size && size % PAYLOAD == size - (n - 1) * PAYLOAD <= PAYLOAD
  {
  }

  lemma SavedNeeded(frames: seq<Frame>, size: nat)
    requires Frames(frames) && Needed(size) <= |frames|
    ensures Saved(frames, size, Needed(size)) == Original(frames, size)
  {
    var n := Needed(size);
    NeededCases(size);
    if n * PAYLOAD <= size {
      SavedWhole(frames, size, n);
      assert Stream(frames, n)[..size] == Stream(frames, n);
    } else {
      SavedWhole(frames, size, n - 1);
      TakeOfSum(Stream(frames, n - 1), Payload(frames[n - 1]), size);
    }
  }

  lemma {:induction false} SavedBeyond(frames: seq<Frame>, size: nat, s: nat)
    requires Frames(frames) && Needed(size) < s <= |frames|
    ensures size % PAYLOAD == 0 ==> Saved(frames, size, s) == Original(frames, size)
    ensures size % PAYLOAD != 0 ==> |Saved(frames, size, s)| > size
  {
    if s == Needed(size) + 1 {
      SavedNeeded(frames, size);
    } else {
      SavedBeyond(frames, size, s - 1);
    }
    assert s * PAYLOAD > size;
  }

  /** The file is right exactly when the needed number of frames has been saved, or when more have
      and the size is a multiple of the payload: after a partial last frame `rest_file_size` is not
      reset, so that every further frame appends another partial payload. */
  lemma SavedIsOriginal(frames: seq<Frame>, size: nat, s: nat)
    requires Frames(frames) && Needed(size) <= |frames| && s <= |frames|
    ensures Saved(frames, size, s) == Original(frames, size)
            <==> s == Needed(size) || (s > Needed(size) && size % PAYLOAD == 0)
  {
    if s < Needed(size) {
      SavedWhole(frames, size, s);
    } else if s == Needed(size) {
      SavedNeeded(frames, size);
    } else {
      SavedBeyond(frames, size, s);
    }
  }

  // ---------------------------------------------------------------- the file that was sent

  /** The frames carry these bytes: the size in the first one's header, and 102400 bytes each from byte 48 on. */
  ghost predicate Carry(frames: seq<Frame>, bytes: seq<byte>) {
    && (forall i :: 0 <= i < |frames| ==> |frames[i]| == 102448) && 0 < |frames| && |bytes| <= 102400 * |frames|
    && SizeHeader(frames[0], |bytes|)
    && forall i :: 0 <= i < |bytes| ==> bytes[i] == frames[i / 102400][48 + i % 102400]
  }

  lemma {:induction false} StreamAt(frames: seq<Frame>, k: nat, i: nat)
    requires Frames(frames) && k <= |frames| && i < k * PAYLOAD
    ensures i / PAYLOAD < |frames| && Stream(frames, k)[i] == frames[i / PAYLOAD][HEADER + i % PAYLOAD]
  {
    if i < (k - 1) * PAYLOAD { StreamAt(frames, k - 1, i); }
  }

  lemma CarriedIsOriginal(frames: seq<Frame>, bytes: seq<byte>)
    requires Carry(frames, bytes)
    ensures Frames(frames) && SizeOf(frames[0]) == |bytes|
    ensures Needed(|bytes|) <= |frames| && Original(frames, |bytes|) == bytes
  {
    SizeReadBack(frames[0], |bytes|);
    var n := Needed(|bytes|);
    NeededCases(|bytes|);
    var original := Original(frames, |bytes|);
    forall i | 0 <= i < |bytes| ensures original[i] == bytes[i] {
      StreamAt(frames, n, i);
      assert original[i] == Stream(frames, n)[i];
    }
  }

  // ---------------------------------------------------------------- whole runs

  ghost function Filled(s: State): (r: nat) { if s.filling then s.counter + 1 else s.counter }

  ghost predicate SaverInv(s: State)
    requires QueueInv(s)
  {
    var log := s.queue.logs[0];
    && (forall i :: 0 <= i < |log| ==> log[i] == i) && Next(s.queue, 0) == |log|
    && (s.taken.None? ==> s.saved == |log|)
    && (s.taken.Some? ==> s.saved + 1 == |log| && s.taken.value == s.saved % SLOTS)
  }

  ghost predicate SlotsInv(s: State, frames: seq<Frame>)
    requires Frames(frames)
  {
    && |s.slots| == SLOTS && Frames(s.slots) && s.saved <= Filled(s) <= |frames| && Filled(s) - s.saved <= SLOTS
    && forall m: nat :: s.saved <= m < Filled(s) ==> s.slots[m % SLOTS] == frames[m]
  }

  ghost predicate FileInv(s: State, frames: seq<Frame>)
    requires Frames(frames) && s.saved <= |frames|
  {
    if Filled(s) == 0 then s.rest == 0 && s.file == [] && s.saved == 0
    else |frames| > 0 && s.rest == RestAfter(SizeOf(frames[0]), s.saved)
         && s.file == Saved(frames, SizeOf(frames[0]), s.saved)
  }

  ghost predicate RunInv(s: State, frames: seq<Frame>)
    requires Frames(frames)
  {
    QueueInv(s) && SaverInv(s) && SlotsInv(s, frames) && FileInv(s, frames)
  }

  lemma FillKeeps(s: State, frames: seq<Frame>)
    requires Frames(frames) && RunInv(s, frames) && Enabled(s, Fill, frames) && InTime(s, Fill)
    ensures RunInv(Act(s, Fill, frames), frames)
  {
    var t := Act(s, Fill, frames);
    forall m: nat | t.saved <= m < Filled(t) ensures t.slots[m % SLOTS] == frames[m] {
      if m < s.counter {
        assert m % SLOTS != s.counter % SLOTS by { Apart(m, s.counter); }
      }
    }
    assert t.saved * PAYLOAD <= SizeOf(frames[0]) || s.counter > 0;
  }

  lemma Apart(m: nat, n: nat)
    requires m < n < m + SLOTS
    ensures m % SLOTS != n % SLOTS
  {
  }

  lemma PublishKeeps(s: State, frames: seq<Frame>)
    requires Frames(frames) && RunInv(s, frames) && Enabled(s, Publish, frames) && InTime(s, Publish)
    ensures RunInv(Act(s, Publish, frames), frames)
  {
    ActKeepsQueueInv(s, Publish, frames);
  }

  lemma TakeKeeps(s: State, frames: seq<Frame>)
    requires Frames(frames) && RunInv(s, frames) && Enabled(s, Take, frames)
    ensures RunInv(Act(s, Take, frames), frames)
  {
    ActKeepsQueueInv(s, Take, frames);
    ReadGivesNext(s.queue, 0, CAPACITY);
    QueuedSlot(s, s.queue.rpos[0]);
  }

  lemma SaveKeeps(s: State, frames: seq<Frame>)
    requires Frames(frames) && RunInv(s, frames) && Enabled(s, Save, frames)
    ensures RunInv(Act(s, Save, frames), frames)
  {
    assert ReaderInv(s.queue, 0);
    assert s.saved < s.counter;
    assert s.slots[s.saved % SLOTS] == frames[s.saved];
    SaveRest(SizeOf(frames[0]), s.saved);
  }

  /** The saver's test against `rest_file_size` tells whether a whole payload is still wanted. */
  lemma SaveRest(size: nat, s: nat)
    ensures RestAfter(size, s) >= PAYLOAD <==> (s + 1) * PAYLOAD <= size
    ensures RestAfter(size, s) >= PAYLOAD ==> RestAfter(size, s + 1) == RestAfter(size, s) - PAYLOAD
    ensures RestAfter(size, s) < PAYLOAD ==> RestAfter(size, s) == size % PAYLOAD == RestAfter(size, s + 1)
  {
  }

  /** A run in which every action can happen and the saver is quick enough. */
  ghost predicate KeepsPace(actions: seq<Action>, slots: seq<Frame>, frames: seq<Frame>)
    requires Frames(frames) && |slots| == SLOTS && Frames(slots)
  {
    forall i :: 0 <= i < |actions| ==>
      Enabled(After(actions[..i], slots, frames), actions[i], frames)
      && InTime(After(actions[..i], slots, frames), actions[i])
  }

  lemma {:induction false} RunKeepsInv(actions: seq<Action>, slots: seq<Frame>, frames: seq<Frame>)
    requires Frames(frames) && |slots| == SLOTS && Frames(slots) && KeepsPace(actions, slots, frames)
    ensures RunInv(After(actions, slots, frames), frames)
  {
    if actions != [] {
      var before, a := actions[..|actions| - 1], actions[|actions| - 1];
      forall i | 0 <= i < |before|
        ensures Enabled(After(before[..i], slots, frames), before[i], frames)
                && InTime(After(before[..i], slots, frames), before[i])
      {
        assert before[..i] == actions[..i];
      }
      RunKeepsInv(before, slots, frames);
      var s := After(before, slots, frames);
      match a
      case Fill => FillKeeps(s, frames);
      case Publish => PublishKeeps(s, frames);
      case Take => TakeKeeps(s, frames);
      case Save => SaveKeeps(s, frames);
    }
  }

  lemma SavedInPace(actions: seq<Action>, slots: seq<Frame>, frames: seq<Frame>)
    requires Frames(frames) && |slots| == SLOTS && Frames(slots) && KeepsPace(actions, slots, frames)
    requires |frames| > 0 && Needed(SizeOf(frames[0])) <= |frames|
    ensures var s, size := After(actions, slots, frames), SizeOf(frames[0]);
      Filled(s) > 0 ==>
      (s.file == Original(frames, size) <==>
       s.saved == Needed(size) || (s.saved > Needed(size) && size % PAYLOAD == 0))
  {
    RunKeepsInv(actions, slots, frames);
    SavedIsOriginal(frames, SizeOf(frames[0]), After(actions, slots, frames).saved);
  }

  /** In every run in which the saver keeps pace, however the two threads interleave, the file equals
      the one that was sent exactly when the right number of frames has been saved. */
  lemma FileReassembled(actions: seq<Action>, slots: seq<Frame>, frames: seq<Frame>, bytes: seq<byte>)
    requires Carry(frames, bytes) && |slots| == SLOTS && Frames(slots) && KeepsPace(actions, slots, frames)
    ensures var s, needed := After(actions, slots, frames), (|bytes| + 102399) / 102400;
      s.file == bytes <==> s.saved == needed || (s.saved > needed && |bytes| % 102400 == 0)
  {
    CarriedIsOriginal(frames, bytes);
    SavedInPace(actions, slots, frames);
    RunKeepsInv(actions, slots, frames);
  }

  lemma PaceNext(actions: seq<Action>, a: Action, slots: seq<Frame>, frames: seq<Frame>)
    requires Frames(frames) && |slots| == SLOTS && Frames(slots) && KeepsPace(actions, slots, frames)
    requires Enabled(After(actions, slots, frames), a, frames) && InTime(After(actions, slots, frames), a)
    ensures KeepsPace(actions + [a], slots, frames)
    ensures After(actions + [a], slots, frames) == Act(After(actions, slots, frames), a, frames)
  {
    var all := actions + [a];
    assert all[..|actions|] == actions;
    forall i | 0 <= i < |all|
      ensures Enabled(After(all[..i], slots, frames), all[i], frames) && InTime(After(all[..i], slots, frames), all[i])
    {
      if i < |actions| { assert all[..i] == actions[..i]; }
    }
  }

  /** Each frame is saved before the next one is captured. */
  ghost predicate CaughtUp(s: State, n: nat) {
    && s.counter == s.saved == n && !s.filling && s.taken.None?
    && |s.queue.rpos| == READERS && |s.queue.logs| == READERS && |s.queue.logs[0]| == n
  }

  /** Every number of frames can be saved in a run that keeps pace. */
  lemma {:induction false} PacedRun(n: nat, slots: seq<Frame>, frames: seq<Frame>) returns (actions: seq<Action>)
    requires Frames(frames) && |slots| == SLOTS && Frames(slots) && n <= |frames|
    ensures KeepsPace(actions, slots, frames) && CaughtUp(After(actions, slots, frames), n)
  {
    actions := [];
    if n > 0 {
      actions := PacedRun(n - 1, slots, frames);
      actions := PacedStep(actions, Fill, n, slots, frames);
      actions := PacedStep(actions, Publish, n, slots, frames);
      actions := PacedStep(actions, Take, n, slots, frames);
      actions := PacedStep(actions, Save, n, slots, frames);
    }
  }

  /** Where such a run stands after each of the four actions for the n-th frame. */
  ghost predicate Stage(s: State, a: Action, n: nat) {
    && |s.queue.rpos| == READERS && |s.queue.logs| == READERS && n > 0 && s.saved == n - 1
    && match a
       case Fill => CaughtUp(s, n - 1)
       case Publish => s.filling && s.counter == n - 1 && s.taken.None? && |s.queue.logs[0]| == n - 1
       case Take => !s.filling && s.counter == n && s.taken.None? && |s.queue.logs[0]| == n - 1
       case Save => !s.filling && s.counter == n && s.taken.Some? && |s.queue.logs[0]| == n
  }

  lemma PacedStep(before: seq<Action>, a: Action, n: nat, slots: seq<Frame>, frames: seq<Frame>)
      returns (actions: seq<Action>)
    requires Frames(frames) && |slots| == SLOTS && Frames(slots) && n <= |frames|
    requires KeepsPace(before, slots, frames) && Stage(After(before, slots, frames), a, n)
    ensures KeepsPace(actions, slots, frames)
    ensures var s := After(actions, slots, frames);
      match a
      case Fill => Stage(s, Publish, n)
      case Publish => Stage(s, Take, n)
      case Take => Stage(s, Save, n)
      case Save => CaughtUp(s, n)
  {
    var s := After(before, slots, frames);
    RunKeepsInv(before, slots, frames);
    assert ReaderInv(s.queue, 0);
    PaceNext(before, a, slots, frames);
    actions := before + [a];
    RunKeepsInv(actions, slots, frames);
  }

  /** ... so that a file of any size does arrive, given its frames. */
  lemma FileArrives(slots: seq<Frame>, frames: seq<Frame>, bytes: seq<byte>) returns (actions: seq<Action>)
    requires Carry(frames, bytes) && |slots| == SLOTS && Frames(slots)
    ensures KeepsPace(actions, slots, frames) && After(actions, slots, frames).file == bytes
  {
    CarriedIsOriginal(frames, bytes);
    var n := Needed(|bytes|);
    actions := PacedRun(n, slots, frames);
    RunKeepsInv(actions, slots, frames);
    if n > 0 { FileReassembled(actions, slots, frames, bytes); }
  }

  /** One frame too many spoils it, unless the size is a multiple of the payload. */
  lemma FrameTooMany(slots: seq<Frame>, frames: seq<Frame>, bytes: seq<byte>) returns (actions: seq<Action>)
    requires Carry(frames, bytes) && |slots| == SLOTS && Frames(slots)
    requires |bytes| % 102400 != 0 && (|bytes| + 102399) / 102400 < |frames|
    ensures KeepsPace(actions, slots, frames) && After(actions, slots, frames).file != bytes
    ensures After(actions, slots, frames).saved == (|bytes| + 102399) / 102400 + 1
  {
    CarriedIsOriginal(frames, bytes);
    actions := PacedRun(Needed(|bytes|) + 1, slots, frames);
    FileReassembled(actions, slots, frames, bytes);
  }

  // ---------------------------------------------------------------- the receiver object

  /** The size's eight bytes are added in, each shifted by its place. */
  method AddSize(frame: Frame, rest: nat) returns (r: nat)
    requires |frame| == FRAME
    ensures r == rest + SizeOf(frame)
  {
    r := rest;
    for i := 0 to 8
      invariant r + SizeFrom(frame, i) == rest + SizeOf(frame)
    {
      r := r + Shifted(frame[SIZE_AT + i], i);
    }
  }

  /** The variables that the two threads share. `filling`, `taken` and `saved` say where the threads are. */
  class Receiver {
    const mptrData: array<Frame>
    const ring: TRWRingQueue<int>
    var counter: nat
    var fileDataCnt: nat
    var restFileSize: nat
    var file: seq<byte>
    ghost var filling: bool
    ghost var taken: Option<int>
    ghost var saved: nat

    ghost predicate Valid()
      reads this, mptrData, ring, ring.rpos
    {
      && ring.Valid() && ring.count == CAPACITY && ring.rpos != mptrData as object
      && mptrData.Length == SLOTS && Frames(mptrData[..])
      && fileDataCnt == if filling then counter + 1 else counter
    }

    ghost function Now(): (r: State)
      reads this, mptrData, ring
    {
      State(counter, filling, ring.world, mptrData[..], taken, restFileSize, file, saved)
    }

    constructor (slots: array<Frame>, queue: TRWRingQueue<int>)
      requires slots.Length == SLOTS && Frames(slots[..]) && slots as object != queue.rpos
      requires queue.Valid() && queue.count == CAPACITY && queue.world == Start()
      ensures Valid() && mptrData == slots && ring == queue && Now() == Initial(slots[..])
    {
      mptrData, ring := slots, queue;
      counter, fileDataCnt, restFileSize, file := 0, 0, 0, [];
      filling, taken, saved := false, None, 0;
    }

    /** The capture thread copies a frame into its slot; the first one brings the size of the file. */
    method FillSlot(frame: Frame, ghost frames: seq<Frame>)
      requires Valid() && Frames(frames) && Enabled(Now(), Fill, frames) && frame == frames[counter]
      modifies this, mptrData
      ensures Valid() && Now() == Act(old(Now()), Fill, frames)
    {
      var index := counter % SLOTS;
      mptrData[index] := frame;
      if fileDataCnt == 0 {
        restFileSize := AddSize(frame, restFileSize);
      }
      fileDataCnt := fileDataCnt + 1;
      filling := true;
    }

    /** The capture thread queues the slot it has filled. */
    method QueueSlot(ghost frames: seq<Frame>)
      requires Valid() && Frames(frames) && Enabled(Now(), Publish, frames)
      modifies this, ring, ring.rpos
      ensures Valid() && Now() == Act(old(Now()), Publish, frames)
    {
      var ret, released := ring.Write(counter % SLOTS, x => x + 1);
      counter := counter + 1;
      filling := false;
    }

    /** The saving thread reads the next slot number. */
    method TakeSlot(ghost frames: seq<Frame>) returns (index: int)
      requires Valid() && Frames(frames) && Enabled(Now(), Take, frames)
      modifies this`taken, ring`world, ring.rpos
      ensures Valid() && Now() == Act(old(Now()), Take, frames) && taken == Some(index)
    {
      assert ReaderInv(ring.world, 0);
      var item;
      index, item := ring.Read(0, 500000, x => x);
      taken := item;
    }

    /** The saving thread appends the slot's payload, or what the file still lacks of it. */
    method SaveSlot(index: int, ghost frames: seq<Frame>)
      requires Valid() && Frames(frames) && taken == Some(index) && 0 <= index < SLOTS
      modifies this
      ensures Valid() && Now() == Act(old(Now()), Save, frames)
    {
      if restFileSize >= FRAME - HEADER {
        file := file + mptrData[index][HEADER..];
        restFileSize := restFileSize - (FRAME - HEADER);
      } else {
        file := file + mptrData[index][HEADER..HEADER + restFileSize];
        assert Payload(mptrData[index])[..restFileSize] == mptrData[index][HEADER..HEADER + restFileSize];
      }
      taken := None;
      saved := saved + 1;
    }
  }
}
