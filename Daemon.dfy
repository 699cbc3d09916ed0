/*
 * The daemon side of socket.c: the exposure loop `daemon_` with its dark
 * frame schedule, error budget and image counter, `copyima` publishing the
 * last frame, and the per-client steps of `handle_socket`.
 */
module Daemon {
  import opened CStrings
  import opened ImFunctions
  import opened Socket

  /*************************** dark frames ***************************/

  /**
   * The type of the next frame and the time of the last dark: an
   * automatic-dark camera keeps its type; a dark is always followed by a
   * light frame; a light frame turns into a dark when the exposure exceeds
   * `minDarkExp` and more than `darkInterval` seconds passed since the last
   * dark, which then becomes `now`.
   */
  function NextFrame(imtype: int, exptime: real, lastDT: real, now: real,
                     minDarkExp: real, darkInterval: real): (r: (int, real))
    ensures imtype == IMTYPE_AUTODARK ==> r == (imtype, lastDT)
    ensures imtype == IMTYPE_DARK ==> r == (IMTYPE_LIGHT, lastDT)
    ensures r.0 == IMTYPE_DARK <==>
      imtype != IMTYPE_AUTODARK && imtype != IMTYPE_DARK &&
      exptime > minDarkExp && now - lastDT > darkInterval
    ensures r.0 == IMTYPE_DARK ==> r.1 == now
    ensures r.0 != IMTYPE_DARK ==> r.1 == lastDT
    ensures r.0 != IMTYPE_DARK && imtype != IMTYPE_DARK ==> r.0 == imtype
  {
    if imtype == IMTYPE_AUTODARK then (imtype, lastDT)
    else if imtype == IMTYPE_DARK then (IMTYPE_LIGHT, lastDT)
    else if exptime > minDarkExp && now - lastDT > darkInterval then (IMTYPE_DARK, now)
    else (imtype, lastDT)
  }

  /** What one cycle of the loop sees: the exposure in use and the clock. */
  datatype Tick = Tick(exptime: real, now: real)

  /** The frame types of successive cycles, starting from `imtype` and `lastDT`. */
  function Schedule(imtype: int, lastDT: real, ticks: seq<Tick>,
                    minDarkExp: real, darkInterval: real): (types: seq<int>)
    ensures |types| == |ticks|
    decreases |ticks|
  {
    if ticks == [] then []
    else
      var r := NextFrame(imtype, ticks[0].exptime, lastDT, ticks[0].now, minDarkExp, darkInterval);
      [r.0] + Schedule(r.0, r.1, ticks[1..], minDarkExp, darkInterval)
  }

  /** Automatic-dark cameras never get a separate dark frame. */
  lemma {:induction false} AutoDarkStays(lastDT: real, ticks: seq<Tick>, minDarkExp: real, darkInterval: real)
    ensures forall i :: 0 <= i < |ticks| ==>
      Schedule(IMTYPE_AUTODARK, lastDT, ticks, minDarkExp, darkInterval)[i] == IMTYPE_AUTODARK
  {
    if ticks != [] {
      AutoDarkStays(lastDT, ticks[1..], minDarkExp, darkInterval);
    }
  }

  /** Two darks are never taken in a row. */
  lemma {:induction false} NoTwoDarksInARow(imtype: int, lastDT: real, ticks: seq<Tick>,
                                             minDarkExp: real, darkInterval: real)
    ensures forall i :: 0 <= i < |ticks| - 1 ==>
      !(Schedule(imtype, lastDT, ticks, minDarkExp, darkInterval)[i] == IMTYPE_DARK &&
        Schedule(imtype, lastDT, ticks, minDarkExp, darkInterval)[i + 1] == IMTYPE_DARK)
    decreases |ticks|
  {
    if ticks != [] {
      var r := NextFrame(imtype, ticks[0].exptime, lastDT, ticks[0].now, minDarkExp, darkInterval);
      var types := Schedule(imtype, lastDT, ticks, minDarkExp, darkInterval);
      var rest := Schedule(r.0, r.1, ticks[1..], minDarkExp, darkInterval);
      NoTwoDarksInARow(r.0, r.1, ticks[1..], minDarkExp, darkInterval);
      assert types == [r.0] + rest;
      forall i | 0 <= i < |types| - 1
        ensures !(types[i] == IMTYPE_DARK && types[i + 1] == IMTYPE_DARK)
      {
        if i > 0 {
          assert types[i] == rest[i - 1] && types[i + 1] == rest[i];
        } else if r.0 == IMTYPE_DARK {
          var t := ticks[1..];
          assert types[1] == rest[0];
          assert rest[0] == NextFrame(r.0, t[0].exptime, r.1, t[0].now, minDarkExp, darkInterval).0;
        }
      }
    }
  }

  /** The first dark of a schedule comes more than `darkInterval` after `lastDT`. */
  lemma {:induction false} FirstDarkWaits(imtype: int, lastDT: real, ticks: seq<Tick>,
                                          minDarkExp: real, darkInterval: real, j: nat)
    requires var types := Schedule(imtype, lastDT, ticks, minDarkExp, darkInterval);
             j < |types| && types[j] == IMTYPE_DARK &&
             forall k :: 0 <= k < j ==> types[k] != IMTYPE_DARK
    ensures ticks[j].now - lastDT > darkInterval
    decreases |ticks|
  {
    var r := NextFrame(imtype, ticks[0].exptime, lastDT, ticks[0].now, minDarkExp, darkInterval);
    var rest := Schedule(r.0, r.1, ticks[1..], minDarkExp, darkInterval);
    var types := Schedule(imtype, lastDT, ticks, minDarkExp, darkInterval);
    assert types == [r.0] + rest;
    if j > 0 {
      assert types[0] != IMTYPE_DARK;
      forall k | 0 <= k < j - 1 ensures rest[k] != IMTYPE_DARK {
        assert rest[k] == types[k + 1];
      }
      assert rest[j - 1] == types[j];
      FirstDarkWaits(r.0, r.1, ticks[1..], minDarkExp, darkInterval, j - 1);
    }
  }

  /**
   * Between two successive darks of a schedule more than `darkInterval`
   * seconds pass on the clock.
   */
  lemma {:induction false} DarksAreSpaced(imtype: int, lastDT: real, ticks: seq<Tick>,
                                          minDarkExp: real, darkInterval: real, i: nat, j: nat)
    requires var types := Schedule(imtype, lastDT, ticks, minDarkExp, darkInterval);
             i < j < |types| && types[i] == IMTYPE_DARK && types[j] == IMTYPE_DARK &&
             forall k :: i < k < j ==> types[k] != IMTYPE_DARK
    ensures ticks[j].now - ticks[i].now > darkInterval
    decreases |ticks|
  {
    var r := NextFrame(imtype, ticks[0].exptime, lastDT, ticks[0].now, minDarkExp, darkInterval);
    var rest := Schedule(r.0, r.1, ticks[1..], minDarkExp, darkInterval);
    var types := Schedule(imtype, lastDT, ticks, minDarkExp, darkInterval);
    assert types == [r.0] + rest;
    assert rest[j - 1] == types[j];
    if i == 0 {
      assert r.1 == ticks[0].now;
      forall k | 0 <= k < j - 1 ensures rest[k] != IMTYPE_DARK {
        assert rest[k] == types[k + 1];
      }
      FirstDarkWaits(r.0, r.1, ticks[1..], minDarkExp, darkInterval, j - 1);
    } else {
      assert rest[i - 1] == types[i];
      forall k | i - 1 < k < j - 1 ensures rest[k] != IMTYPE_DARK {
        assert rest[k] == types[k + 1];
      }
      DarksAreSpaced(r.0, r.1, ticks[1..], minDarkExp, darkInterval, i - 1, j - 1);
    }
  }

  /*************************** the exposure loop ***************************/

  /** How one cycle of the loop ended. */
  datatype Outcome = StartFailed | TransferFailed | NotStored | Published

  predicate Failed(o: Outcome)
  {
    o == StartFailed || o == TransferFailed
  }

  function OutcomeOf(startOk: bool, frame: Option<seq<uint16>>, allocOk: bool): Outcome
  {
    if !startOk then StartFailed
    else if frame.None? then TransferFailed
    else if !allocOk then NotStored
    else Published
  }

  /** The number of failed cycles at the end of the log. */
  function FailureRun(log: seq<Outcome>): nat
  {
    if log == [] || !Failed(log[|log| - 1]) then 0 else FailureRun(log[..|log| - 1]) + 1
  }

  /** The number of published frames in the log. */
  function PublishedCount(log: seq<Outcome>): nat
  {
    if log == [] then 0
    else PublishedCount(log[..|log| - 1]) + (if log[|log| - 1] == Published then 1 else 0)
  }

  /** The trailing failure count reaches `k` exactly when the last `k` cycles all failed. */
  lemma {:induction false} FailureRunMeaning(log: seq<Outcome>, k: nat)
    ensures FailureRun(log) >= k <==>
      k <= |log| && forall i :: |log| - k <= i < |log| ==> Failed(log[i])
  {
    if k > 0 && log != [] {
      var init := log[..|log| - 1];
      FailureRunMeaning(init, k - 1);
      if FailureRun(log) >= k {
        assert Failed(log[|log| - 1]);
        forall i | |log| - k <= i < |log| ensures Failed(log[i]) {
          if i < |log| - 1 {
            assert log[i] == init[i];
          }
        }
      }
      if k <= |log| && forall i :: |log| - k <= i < |log| ==> Failed(log[i]) {
        assert Failed(log[|log| - 1]);
        forall i | |init| - (k - 1) <= i < |init| ensures Failed(init[i]) {
          assert init[i] == log[i];
        }
      }
    }
  }

  /** Appending one outcome to the log moves both counters by one step. */
  lemma LogStep(log: seq<Outcome>, o: Outcome)
    ensures FailureRun(log + [o]) == (if Failed(o) then FailureRun(log) + 1 else 0)
    ensures PublishedCount(log + [o]) == PublishedCount(log) + (if o == Published then 1 else 0)
  {
    assert (log + [o])[..|log|] == log;
  }

  /** The copy `copyima` publishes: the record with its first W*H pixels. */
  function Snapshot(im: ImStorage): (s: ImStorage)
    requires im.imdata.Some? && im.Area() <= |im.imdata.value|
    ensures s.imdata.Some? && |s.imdata.value| == s.Area()
    ensures Pixels(s) == Pixels(im)
    ensures s.(imdata := im.imdata) == im
  {
    im.(imdata := Some(im.imdata.value[..im.Area()]))
  }

  /** What one cycle is given by the camera, the clock and the allocator. */
  datatype CycleInput = CycleInput(now: real, startOk: bool, frame: Option<seq<uint16>>, allocOk: bool)

  function OutcomesOf(inputs: seq<CycleInput>): (log: seq<Outcome>)
    ensures |log| == |inputs|
  {
    if inputs == [] then []
    else
      var c := inputs[|inputs| - 1];
      OutcomesOf(inputs[..|inputs| - 1]) + [OutcomeOf(c.startOk, c.frame, c.allocOk)]
  }

  const MAX_ERRORS: int := 33

  /** The state `daemon_` keeps across cycles, with the published frame and counter. */
  class ImagingDaemon {
    var img: ImStorage
    var lastDT: real
    var errcntr: int
    var imctr: nat
    var storedima: Option<ImStorage>
    var minDarkExp: real
    var darkInterval: real
    const exposure: AutoExposure
    ghost var log: seq<Outcome>

    /**
     * The error counter is the number of failed cycles at the end of the
     * log, the image counter the number of frames published, and a
     * published frame holds exactly its W*H pixels.
     */
    ghost predicate Valid()
      reads this, exposure
    {
      exposure.Valid() &&
      errcntr == FailureRun(log) &&
      imctr == PublishedCount(log) &&
      (storedima.Some? ==> storedima.value.imdata.Some? &&
                           |storedima.value.imdata.value| == storedima.value.Area())
    }

    constructor (img: ImStorage, minDarkExp: real, darkInterval: real, exposure: AutoExposure)
      requires exposure.Valid()
      ensures Valid()
      ensures this.img == img && lastDT == 0.0 && errcntr == 0 && imctr == 0 && storedima.None?
      ensures this.minDarkExp == minDarkExp && this.darkInterval == darkInterval
      ensures this.exposure == exposure && log == []
    {
      this.img := img;
      lastDT := 0.0;
      errcntr := 0;
      imctr := 0;
      storedima := None;
      this.minDarkExp := minDarkExp;
      this.darkInterval := darkInterval;
      this.exposure := exposure;
      log := [];
    }

    /** `set_darks`: the exposure above which darks are taken and their interval. */
    method SetDarks(exp: real, dt: real)
      requires Valid()
      modifies this
      ensures Valid()
      ensures minDarkExp == exp && darkInterval == dt
      ensures img == old(img) && lastDT == old(lastDT) && errcntr == old(errcntr)
      ensures imctr == old(imctr) && storedima == old(storedima) && log == old(log)
    {
      minDarkExp := exp;
      darkInterval := dt;
    }

    /**
     * `copyima`: the published frame is dropped first; a frame without data
     * or whose pixel buffer cannot be allocated leaves nothing published.
     */
    method CopyIma(im: ImStorage, allocOk: bool) returns (ok: bool)
      requires im.imdata.Some? ==> im.Area() <= |im.imdata.value|
      modifies this`storedima
      ensures ok <==> im.imdata.Some? && allocOk
      ensures storedima == (if ok then Some(Snapshot(im)) else None)
    {
      storedima := None;
      if im.imdata.None? || !allocOk {
        return false;
      }
      storedima := Some(Snapshot(im));
      return true;
    }

    /**
     * The head of a `daemon_` pass: take the recommended exposure when there
     * is one, and pick the type of the coming frame.
     */
    method PlanFrame(now: real)
      modifies this`img, this`lastDT
      ensures var ex := if exposure.expCalculated > 0.0 then exposure.expCalculated else old(img.exptime);
              var next := NextFrame(old(img.imtype), ex, old(lastDT), now, minDarkExp, darkInterval);
              img == old(img).(exptime := ex, imtype := next.0) && lastDT == next.1
    {
      if exposure.expCalculated > 0.0 {
        img := img.(exptime := exposure.expCalculated);
      }
      var next := NextFrame(img.imtype, img.exptime, lastDT, now, minDarkExp, darkInterval);
      img := img.(imtype := next.0);
      lastDT := next.1;
    }

    /**
     * The rest of a `daemon_` pass: expose and transfer; a good frame resets
     * the error counter, is published (counting it) and, unless it is a
     * dark, sets the next recommended exposure. `fatal` is the
     * unrecoverable-error exit.
     */
    method Expose(c: CycleInput, multiplier: (int, int, int) -> real) returns (fatal: bool)
      requires Valid()
      requires c.frame.Some? ==> img.Area() <= |c.frame.value|
      modifies this`img, this`errcntr, this`imctr, this`storedima, this`log, exposure
      ensures Valid()
      ensures img == (if c.startOk then old(img).(imdata := c.frame) else old(img))
      ensures log == old(log) + [OutcomeOf(c.startOk, c.frame, c.allocOk)]
      ensures errcntr == (if c.startOk && c.frame.Some? then 0 else old(errcntr) + 1)
      ensures imctr == old(imctr) + (if OutcomeOf(c.startOk, c.frame, c.allocOk) == Published then 1 else 0)
      ensures c.startOk && c.frame.Some? ==>
        storedima == (if c.allocOk then Some(Snapshot(img)) else None)
      ensures !(c.startOk && c.frame.Some?) ==> storedima == old(storedima)
      ensures OutcomeOf(c.startOk, c.frame, c.allocOk) == Published && img.imtype != IMTYPE_DARK ==>
        exposure.expCalculated == HistogramExposure(Pixels(img), img.exptime, multiplier, exposure.maxExptime)
      ensures !(OutcomeOf(c.startOk, c.frame, c.allocOk) == Published && img.imtype != IMTYPE_DARK) ==>
        exposure.expCalculated == old(exposure.expCalculated)
      ensures exposure.maxExptime == old(exposure.maxExptime)
      ensures fatal <==> errcntr >= MAX_ERRORS
    {
      ghost var o := OutcomeOf(c.startOk, c.frame, c.allocOk);
      LogStep(log, o);
      log := log + [o];
      if !c.startOk {
        errcntr := errcntr + 1;
      } else {
        img := img.(imdata := c.frame);
        if c.frame.None? {
          errcntr := errcntr + 1;
        } else {
          errcntr := 0;
          Publish(c.allocOk, multiplier);
        }
      }
      fatal := errcntr >= MAX_ERRORS;
    }

    /**
     * A frame arrived: it is published when its copy can be allocated,
     * which counts it and, unless it is a dark, sets the next recommended
     * exposure.
     */
    method Publish(allocOk: bool, multiplier: (int, int, int) -> real)
      requires exposure.Valid()
      requires img.imdata.Some? && img.Area() <= |img.imdata.value|
      modifies this`imctr, this`storedima, exposure
      ensures exposure.Valid()
      ensures imctr == old(imctr) + (if allocOk then 1 else 0)
      ensures storedima == (if allocOk then Some(Snapshot(img)) else None)
      ensures allocOk && img.imtype != IMTYPE_DARK ==>
        exposure.expCalculated == HistogramExposure(Pixels(img), img.exptime, multiplier, exposure.maxExptime)
      ensures !(allocOk && img.imtype != IMTYPE_DARK) ==> exposure.expCalculated == old(exposure.expCalculated)
      ensures exposure.maxExptime == old(exposure.maxExptime)
    {
      var ok := CopyIma(img, allocOk);
      if ok {
        imctr := imctr + 1;
        if img.imtype != IMTYPE_DARK {
          var _ := exposure.SaveHisto(img, None, multiplier);
        }
      }
    }

    /** One pass of the `daemon_` loop. */
    method Cycle(c: CycleInput, multiplier: (int, int, int) -> real) returns (fatal: bool)
      requires Valid()
      requires c.frame.Some? ==> img.Area() <= |c.frame.value|
      modifies this, exposure
      ensures Valid()
      ensures var ex := if old(exposure.expCalculated) > 0.0 then old(exposure.expCalculated) else old(img.exptime);
              var next := NextFrame(old(img.imtype), ex, old(lastDT), c.now, minDarkExp, darkInterval);
              img == old(img).(exptime := ex, imtype := next.0, imdata := if c.startOk then c.frame else old(img.imdata)) &&
              lastDT == next.1
      ensures log == old(log) + [OutcomeOf(c.startOk, c.frame, c.allocOk)]
      ensures errcntr == (if c.startOk && c.frame.Some? then 0 else old(errcntr) + 1)
      ensures imctr == old(imctr) + (if OutcomeOf(c.startOk, c.frame, c.allocOk) == Published then 1 else 0)
      ensures c.startOk && c.frame.Some? ==>
        storedima == (if c.allocOk then Some(Snapshot(img)) else None)
      ensures !(c.startOk && c.frame.Some?) ==> storedima == old(storedima)
      ensures OutcomeOf(c.startOk, c.frame, c.allocOk) == Published && img.imtype != IMTYPE_DARK ==>
        exposure.expCalculated == HistogramExposure(Pixels(img), img.exptime, multiplier, exposure.maxExptime)
      ensures !(OutcomeOf(c.startOk, c.frame, c.allocOk) == Published && img.imtype != IMTYPE_DARK) ==>
        exposure.expCalculated == old(exposure.expCalculated)
      ensures exposure.maxExptime == old(exposure.maxExptime)
      ensures minDarkExp == old(minDarkExp) && darkInterval == old(darkInterval)
      ensures fatal <==> errcntr >= MAX_ERRORS
    {
      PlanFrame(c.now);
      fatal := Expose(c, multiplier);
    }

    /**
     * The `daemon_` loop over a finite run of cycles: it stops at the first
     * cycle that leaves MAX_ERRORS failures in a row.
     */
    method Run(inputs: seq<CycleInput>, multiplier: (int, int, int) -> real) returns (stopped: bool, cycles: nat)
      requires Valid()
      requires forall i :: 0 <= i < |inputs| && inputs[i].frame.Some? ==> img.Area() <= |inputs[i].frame.value|
      modifies this, exposure
      ensures Valid()
      ensures cycles <= |inputs| && log == old(log) + OutcomesOf(inputs[..cycles])
      ensures stopped <==> cycles > 0 && errcntr >= MAX_ERRORS
      ensures !stopped ==> cycles == |inputs|
      ensures stopped ==> forall i :: 0 <= i && |log| - MAX_ERRORS <= i < |log| ==> Failed(log[i])
      ensures forall k :: |old(log)| < k < |log| ==> FailureRun(log[..k]) < MAX_ERRORS
      ensures img.W == old(img.W) && img.H == old(img.H)
    {
      stopped := false;
      cycles := 0;
      ghost var log0 := log;
      while cycles < |inputs|
        invariant Valid()
        invariant cycles <= |inputs| && log == log0 + OutcomesOf(inputs[..cycles])
        invariant img.W == old(img.W) && img.H == old(img.H)
        invariant cycles > 0 ==> errcntr < MAX_ERRORS
        invariant NeverStopped(log0, log)
      {
        ghost var before := log;
        var c := inputs[cycles];
        var fatal := Cycle(c, multiplier);
        NeverStoppedStep(log0, before, OutcomeOf(c.startOk, c.frame, c.allocOk), log);
        LogStepOf(log0, inputs, cycles, log);
        cycles := cycles + 1;
        if fatal {
          FailureRunMeaning(log, MAX_ERRORS);
          return true, cycles;
        }
      }
      assert inputs[..cycles] == inputs;
    }
  }

  /** Logging the outcome of input `n` extends the log of the first `n` inputs to the first `n + 1`. */
  lemma LogStepOf(log0: seq<Outcome>, inputs: seq<CycleInput>, n: nat, log: seq<Outcome>)
    requires n < |inputs|
    requires log == log0 + OutcomesOf(inputs[..n]) + [OutcomeOf(inputs[n].startOk, inputs[n].frame, inputs[n].allocOk)]
    ensures log == log0 + OutcomesOf(inputs[..n + 1])
  {
    assert inputs[..n + 1][..n] == inputs[..n];
  }

  /** No cycle logged after `log0` left MAX_ERRORS failures in a row behind it. */
  ghost predicate NeverStopped(log0: seq<Outcome>, log: seq<Outcome>)
  {
    forall k :: |log0| < k <= |log| ==> FailureRun(log[..k]) < MAX_ERRORS
  }

  /** One more logged cycle keeps the predicate when it leaves fewer failures in a row than MAX_ERRORS. */
  lemma NeverStoppedStep(log0: seq<Outcome>, before: seq<Outcome>, o: Outcome, log: seq<Outcome>)
    requires log == before + [o] && NeverStopped(log0, before)
    ensures FailureRun(log) < MAX_ERRORS ==> NeverStopped(log0, log)
    ensures forall k :: |log0| < k < |log| ==> FailureRun(log[..k]) < MAX_ERRORS
  {
    forall k | |log0| < k <= |before|
      ensures FailureRun(log[..k]) < MAX_ERRORS
    {
      assert log[..k] == before[..k];
    }
    assert log[..|log|] == log;
  }

  /*************************** serving a client ***************************/

  /** What `handle_socket` keeps for one client: the last frame it was sent and the protocol. */
  datatype Client = Client(locctr: nat, webquery: bool)

  /** A client is due a frame when the published counter moved since its last one. */
  predicate Due(cl: Client, imctr: nat)
  {
    imctr != cl.locctr
  }

  /**
   * No data from the client, with the daemon's stored frame present or not
   * (`stored`): a due frame is sent only when one is stored, and `sent`
   * says whether `send_ima` succeeded; the client then counts it, and a web
   * client is disconnected. The result is the new state and whether to close.
   */
  function Idle(cl: Client, imctr: nat, stored: bool, sent: bool): (r: (Client, bool))
    ensures r.0.webquery == cl.webquery
    ensures r.0.locctr == (if Due(cl, imctr) && stored && sent then imctr else cl.locctr)
    ensures r.1 <==> Due(cl, imctr) && stored && sent && cl.webquery
  {
    if Due(cl, imctr) && stored && sent then (cl.(locctr := imctr), cl.webquery) else (cl, false)
  }

  /**
   * The idle step as written: `send_ima` is called for a due frame without
   * a check of `storedima`, and None stands for its NULL dereference when
   * no frame is stored. Otherwise it is the step above.
   */
  function IdleAsWritten(cl: Client, imctr: nat, stored: bool, sent: bool): (r: Option<(Client, bool)>)
    ensures r.None? <==> Due(cl, imctr) && !stored
    ensures r.Some? ==> r.value == Idle(cl, imctr, stored, sent)
  {
    if Due(cl, imctr) && !stored then None else Some(Idle(cl, imctr, stored, sent))
  }

  /**
   * A frame that is published and then followed by a frame whose copy
   * fails leaves the counter at 1 and nothing stored, so a client that
   * connects then, with its counter at 0, makes `send_ima` dereference NULL.
   */
  method NullFrameAfterFailedCopy(img: ImStorage, px: seq<uint16>) returns (r: Option<(Client, bool)>)
    requires img.Area() <= |px|
    ensures r.None?
  {
    var exposure := new AutoExposure();
    var d := new ImagingDaemon(img, 0.0, 0.0, exposure);
    var fatal := d.Cycle(CycleInput(0.0, true, Some(px), true), (l, m, t) => 1.0);
    fatal := d.Cycle(CycleInput(1.0, true, Some(px), false), (l, m, t) => 1.0);
    r := IdleAsWritten(Client(0, false), d.imctr, d.storedima.Some?, true);
  }

  /** One idle step as a client sees it: the published counter, whether a frame is stored, whether sending worked. */
  datatype IdleStep = IdleStep(imctr: nat, stored: bool, sent: bool)

  /** Whether the step delivers a frame to the client. */
  predicate Delivers(cl: Client, s: IdleStep)
  {
    Due(cl, s.imctr) && s.stored && s.sent
  }

  /** The counters of the frames a client receives over idle steps, up to a disconnect. */
  function Deliveries(cl: Client, steps: seq<IdleStep>): (d: seq<nat>)
    ensures |d| <= |steps|
    decreases |steps|
  {
    if steps == [] then []
    else
      var r := Idle(cl, steps[0].imctr, steps[0].stored, steps[0].sent);
      var now := if Delivers(cl, steps[0]) then [steps[0].imctr] else [];
      if r.1 then now else now + Deliveries(r.0, steps[1..])
  }

  /** The counters of the idle steps never fall below the client's nor decrease. */
  predicate Monotone(cl: Client, steps: seq<IdleStep>)
  {
    (forall i :: 0 <= i < |steps| ==> cl.locctr <= steps[i].imctr) &&
    (forall i, j :: 0 <= i < j < |steps| ==> steps[i].imctr <= steps[j].imctr)
  }

  lemma MonotoneTail(cl: Client, steps: seq<IdleStep>, next: Client)
    requires Monotone(cl, steps) && steps != []
    requires next.locctr == cl.locctr || next.locctr == steps[0].imctr
    ensures Monotone(next, steps[1..])
  {
    var tail := steps[1..];
    forall i | 0 <= i < |tail| ensures next.locctr <= tail[i].imctr {
      assert tail[i] == steps[i + 1];
    }
    forall i, j | 0 <= i < j < |tail| ensures tail[i].imctr <= tail[j].imctr {
      assert tail[i] == steps[i + 1] && tail[j] == steps[j + 1];
    }
  }

  /** Every frame a client receives is newer than the one it had. */
  lemma {:induction false} DeliveredAreNew(cl: Client, steps: seq<IdleStep>)
    requires Monotone(cl, steps)
    ensures forall i :: 0 <= i < |Deliveries(cl, steps)| ==> cl.locctr < Deliveries(cl, steps)[i]
    decreases |steps|
  {
    if steps != [] {
      var r := Idle(cl, steps[0].imctr, steps[0].stored, steps[0].sent);
      MonotoneTail(cl, steps, r.0);
      DeliveredAreNew(r.0, steps[1..]);
      var d := Deliveries(cl, steps);
      var rest := Deliveries(r.0, steps[1..]);
      if !r.1 && Delivers(cl, steps[0]) {
        assert d == [steps[0].imctr] + rest;
        forall i | 0 <= i < |d| ensures cl.locctr < d[i] {
          if i > 0 {
            assert d[i] == rest[i - 1];
          }
        }
      } else if !r.1 {
        assert r.0 == cl;
      }
    }
  }

  /**
   * While the published counter only grows, a client receives every frame
   * at most once and in order.
   */
  lemma {:induction false} DeliveredInOrder(cl: Client, steps: seq<IdleStep>)
    requires Monotone(cl, steps)
    ensures forall i, j :: 0 <= i < j < |Deliveries(cl, steps)| ==>
      Deliveries(cl, steps)[i] < Deliveries(cl, steps)[j]
    decreases |steps|
  {
    if steps != [] {
      var r := Idle(cl, steps[0].imctr, steps[0].stored, steps[0].sent);
      MonotoneTail(cl, steps, r.0);
      DeliveredInOrder(r.0, steps[1..]);
      var d := Deliveries(cl, steps);
      var rest := Deliveries(r.0, steps[1..]);
      if !r.1 && Delivers(cl, steps[0]) {
        DeliveredAreNew(r.0, steps[1..]);
        assert d == [steps[0].imctr] + rest;
        forall i, j | 0 <= i < j < |d| ensures d[i] < d[j] {
          assert d[j] == rest[j - 1];
          if i > 0 {
            assert d[i] == rest[i - 1];
          }
        }
      } else if !r.1 {
        assert r.0 == cl;
      }
    }
  }

  /** A web client is disconnected after the first frame it receives. */
  lemma {:induction false} WebClientGetsOneFrame(cl: Client, steps: seq<IdleStep>)
    requires cl.webquery
    ensures |Deliveries(cl, steps)| <= 1
    decreases |steps|
  {
    if steps != [] {
      var r := Idle(cl, steps[0].imctr, steps[0].stored, steps[0].sent);
      if !r.1 {
        assert r.0 == cl;
        WebClientGetsOneFrame(cl, steps[1..]);
      }
    }
  }

  /**
   * The size `read` is allowed to fill, with the terminating NUL one place
   * further: one less than the buffer, so the NUL stays inside it.
   */
  const READ_LIMIT: nat := BUFLEN - 1

  /** The bytes `read` delivers as the request buffer: NULs stand for the unread rest. */
  function Request(data: string): (b: string)
    requires |data| <= READ_LIMIT
    ensures |b| == BUFLEN && b[..|data|] == data && b[|data|] == NUL
  {
    data + seq(BUFLEN - |data|, _ => NUL)
  }

  /**
   * The read of `handle_socket` as written: `read` may deliver up to BUFLEN
   * bytes, and the terminating NUL goes right after them. The result is the
   * terminated buffer, or None when the NUL would fall one past the end of
   * the buffer, where the code writes it anyway.
   */
  method ReadAsWritten(data: string) returns (b: Option<string>)
    requires 1 <= |data| <= BUFLEN
    ensures b.None? <==> |data| == BUFLEN
    ensures b.Some? ==> |data| <= READ_LIMIT && b.value == Request(data)
  {
    var buff := new char[BUFLEN](_ => NUL);
    forall i | 0 <= i < |data| {
      buff[i] := data[i];
    }
    var read := |data|;
    if read < buff.Length {
      buff[read] := NUL;
      assert buff[..] == Request(data);
      return Some(buff[..]);
    }
    return None;
  }

  /** The buffer after the GET and then the POST scan, and the word they found. */
  function ScanRequest(data: string): (r: (string, Option<nat>))
    requires |data| <= READ_LIMIT
    ensures |r.0| == BUFLEN
    ensures r.1.Some? ==> r.1.value < BUFLEN
  {
    var g := Scan(Request(data), "GET");
    if g.1.Some? then g else Scan(Request(data), "POST")
  }

  /** The request is a web query: it holds a word after GET or POST. */
  predicate IsWebQuery(data: string)
    requires |data| <= READ_LIMIT
  {
    ScanRequest(data).1.Some?
  }

  /**
   * Where `handle_socket` looks for parameters in the scanned buffer `b`:
   * just after the first '/' of the web word found at `got`, else at the
   * start of the buffer.
   */
  function ParamsAt(b: string, got: Option<nat>): (k: nat)
    requires got.Some? ==> got.value <= |b|
    ensures k <= |b|
  {
    match got
    case None => 0
    case Some(a) =>
      match IndexOf(CStr(b[a..]), '/')
      case None => 0
      case Some(i) => a + i + 1
  }

  function ParamsStart(data: string): (k: nat)
    requires |data| <= READ_LIMIT
    ensures k <= BUFLEN
  {
    ParamsAt(ScanRequest(data).0, ScanRequest(data).1)
  }

  /** The text `handle_socket` hands to `getintpar`. */
  function Params(data: string): string
    requires |data| <= READ_LIMIT
  {
    ScanRequest(data).0[ParamsStart(data)..]
  }

  /**
   * One read from the client, `data` (empty when `read` reports nothing or
   * an error): the request is scanned for GET/POST, and a `heater`
   * parameter switches the heater, is answered with a short web page and
   * closes the connection.
   */
  method HandleData(cl: Client, data: string) returns (cl': Client, cmd: Option<HeaterCmd>, reply: string, disconnect: bool)
    requires |data| <= READ_LIMIT
    ensures data == [] ==> cl' == cl && cmd.None? && reply == [] && disconnect
    ensures data != [] ==>
      cl'.locctr == cl.locctr && cl'.webquery == (cl.webquery || IsWebQuery(data)) &&
      var v := GetIntPar(Params(data), "heater");
      cmd == (if v.Some? then Some(HeaterAction(v.value)) else None) &&
      reply == (if v.Some? then HeaterReply(v.value) else []) &&
      disconnect == v.Some?
  {
    if data == [] {
      return cl, None, [], true;
    }
    var buff := new char[BUFLEN](_ => NUL);
    forall i | 0 <= i < |data| {
      buff[i] := data[i];
    }
    buff[|data|] := NUL;
    ghost var b0 := buff[..];
    assert b0 == Request(data);
    var got := StringScan(buff, "GET");
    if got.None? {
      got := StringScan(buff, "POST");
    }
    ghost var sr := ScanRequest(data);
    assert sr == (buff[..], got);
    cl' := cl;
    if got.Some? {
      cl' := cl'.(webquery := true);
    }
    var found := ParamsAt(buff[..], got);
    var htr := GetIntPar(buff[found..], "heater");
    if htr.Some? {
      return cl', Some(HeaterAction(htr.value)), HeaterReply(htr.value), true;
    }
    return cl', None, [], false;
  }

  /** `strchr` stops at the first occurrence. */
  lemma {:induction false} IndexOfFirst(s: string, c: char, k: nat)
    requires k < |s| && s[k] == c && c !in s[..k]
    ensures IndexOf(s, c) == Some(k)
  {
    if k > 0 {
      assert s[0] in s[..k];
      assert s[1..][..k - 1] == s[1..k];
      assert forall x :: x in s[1..k] ==> x in s[..k];
      IndexOfFirst(s[1..], c, k - 1);
    }
  }

  /** A NUL-free request is the C string of its buffer. */
  lemma RequestCString(data: string)
    requires |data| <= READ_LIMIT && NUL !in data
    ensures CStr(Request(data)) == data
  {
    var b := Request(data);
    assert b == data + b[|data|..];
    CStrTerminated(data, b[|data|..]);
  }

  /** A text in which the first character of `p` never appears does not contain `p`. */
  lemma NotFound(s: string, p: string)
    requires p != [] && p[0] !in s
    ensures Find(s, p).None?
  {
    assert s[..|s|] == s;
    NoEarlierOccurrence(s, p, |s|, 0);
  }

  /** A plain request without GET or POST is read for parameters as it came. */
  lemma PlainRequest(data: string)
    requires |data| <= READ_LIMIT && NUL !in data
    requires Find(data, "GET").None? && Find(data, "POST").None?
    ensures !IsWebQuery(data)
    ensures CStr(Params(data)) == data
  {
    var b := Request(data);
    RequestCString(data);
    assert Scan(b, "GET") == (b, None);
    assert Scan(b, "POST") == (b, None);
    assert ScanRequest(data) == (b, None);
    assert Params(data) == b[0..] == b;
  }

  /** The line `heater=<v>` holds neither a NUL nor a 'G' nor a 'P'. */
  lemma HeaterLineChars(v: int)
    ensures var data := "heater=" + IntToDec(v) + "\n";
            NUL !in data && 'G' !in data && 'P' !in data
  {
    var data := "heater=" + IntToDec(v) + "\n";
    forall k | 0 <= k < |data| ensures data[k] != NUL && data[k] != 'G' && data[k] != 'P' {
      if k < 7 {
        assert data[k] == "heater="[k];
      } else if k < 7 + |IntToDec(v)| {
        assert data[k] == IntToDec(v)[k - 7];
        assert IntToDec(v)[k - 7] in IntToDec(v);
      } else {
        assert data[k] == '\n';
      }
    }
  }

  /** `getintpar` reads `v` back from a buffer holding the line `heater=<v>`. */
  lemma HeaterLineReads(str: string, v: int)
    requires FitsLong(v)
    requires CStr(str) == "heater=" + IntToDec(v) + "\n"
    ensures GetIntPar(str, "heater") == Some(v)
  {
    var data := "heater=" + IntToDec(v) + "\n";
    assert OccursAt(data, "heater", 0);
    FindFirst(data, "heater", 0);
    assert data[6..] == "=" + IntToDec(v) + "\n";
    GetIntParReads(str, "heater", 0, v, "\n");
  }

  /** A plain `heater=<v>` line switches the heater accordingly. */
  lemma PlainHeaterCommand(v: int)
    requires FitsLong(v) && |IntToDec(v)| <= 100
    ensures var data := "heater=" + IntToDec(v) + "\n";
            |data| <= READ_LIMIT && !IsWebQuery(data) &&
            GetIntPar(Params(data), "heater") == Some(v)
  {
    var data := "heater=" + IntToDec(v) + "\n";
    HeaterLineChars(v);
    NotFound(data, "GET");
    NotFound(data, "POST");
    PlainRequest(data);
    HeaterLineReads(Params(data), v);
  }

  /** `stringscan` for GET on `GET /<q> <rest>` stops the word after `q`. */
  lemma WebScan(b: string, q: string, rest: string)
    requires CStr(b) == "GET /" + q + " " + rest
    requires ' ' !in q
    ensures Scan(b, "GET") == (b[5 + |q| := NUL], Some(4))
  {
    var s := CStr(b);
    assert OccursAt(s, "GET", 0);
    FindFirst(s, "GET", 0);
    assert SkipFrom(s, 4) == 4;
    assert SkipFrom(s, 3) == 4;
    assert ScanStart(s, "GET") == Some(4);
    assert s[4..] == "/" + q + " " + rest;
    assert s[4..][..|q| + 1] == "/" + q;
    IndexOfFirst(s[4..], ' ', |q| + 1);
    assert WordAt(s, 4) == s[4..5 + |q|];
  }

  /** After that scan the parameters start right behind the '/', and read as `q`. */
  lemma WebParams(b: string, q: string, rest: string)
    requires CStr(b) == "GET /" + q + " " + rest
    requires NUL !in q && ' ' !in q
    ensures ParamsAt(b[5 + |q| := NUL], Some(4)) == 5
    ensures CStr(b[5 + |q| := NUL][5..]) == q
  {
    var s := CStr(b);
    var b1 := b[5 + |q| := NUL];
    assert b1[4..] == "/" + q + b1[5 + |q|..];
    assert NUL !in "/" + q;
    CStrTerminated("/" + q, b1[5 + |q|..]);
    assert IndexOf("/" + q, '/') == Some(0);
    assert b1[5..] == q + b1[5 + |q|..];
    CStrTerminated(q, b1[5 + |q|..]);
  }

  /**
   * A web request `GET /<q> <rest>` is read for parameters in `q`, the
   * part of the requested path after the '/'.
   */
  lemma WebRequest(q: string, rest: string)
    requires |"GET /" + q + " " + rest| <= READ_LIMIT
    requires NUL !in q && NUL !in rest && ' ' !in q
    ensures IsWebQuery("GET /" + q + " " + rest)
    ensures CStr(Params("GET /" + q + " " + rest)) == q
  {
    var data := "GET /" + q + " " + rest;
    var b := Request(data);
    RequestCString(data);
    WebScan(b, q, rest);
    assert ScanRequest(data) == (b[5 + |q| := NUL], Some(4));
    WebParams(b, q, rest);
  }
}
