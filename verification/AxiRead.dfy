/** axi_interconnect.v: the read path, clock by clock. The R channel has an output register and a temporary register
    (a skid buffer); the state machine forwards the beats of the selected master port, or makes up error beats. */
module AxiRead {

  datatype Beat = Beat(id: int, data: int, resp: int, last: bool, user: int)

  /** STATE_IDLE, STATE_DECODE, STATE_READ, STATE_READ_DROP, any of the write states, STATE_WAIT_IDLE */
  datatype Fsm = Idle | Decode | Read | ReadDrop | Writing | WaitIdle

  /** What the arbiter drives: grant_valid, grant_encoded[0] and grant_encoded >> 1. */
  datatype Grant = Grant(valid: bool, read: bool, s: nat)

  /** The registers. rvalid and mReady have one bit for each slave and each master port. */
  datatype Regs = Regs(fsm: Fsm, mSelect: nat, mReady: seq<bool>, id: int, len: int,
                       rvalid: seq<bool>, out: Beat, temp: Beat, tempValid: bool, intReady: bool)

  /** The inputs of one clock. hit and port are the result of the address decoder; writeDone and writeAck stand for
      the write channels. */
  datatype Inputs = Inputs(grant: Grant, hit: bool, port: nat, arid: int, arlen: nat, sReady: seq<bool>,
                           mValid: seq<bool>, mBeat: seq<Beat>, writeDone: bool, writeAck: bool)

  predicate Sized(r: Regs, i: Inputs) {
    && r.mSelect < |r.mReady| == |i.mValid| == |i.mBeat| && i.port < |r.mReady|
    && i.grant.s < |r.rvalid| == |i.sReady|
  }

  // ---------- combinational logic ----------

  /** s_axi_rvalid_int */
  predicate IntValid(r: Regs, i: Inputs)
    requires Sized(r, i)
  {
    (r.fsm.Read? && r.mReady[r.mSelect] && i.mValid[r.mSelect]) || r.fsm.ReadDrop?
  }

  /** s_axi_rid_int, s_axi_rdata_int, ... */
  function IntBeat(r: Regs, i: Inputs): Beat
    requires Sized(r, i)
  {
    if r.fsm.ReadDrop? then Beat(r.id, 0, 3, r.len == 0, 0) else i.mBeat[r.mSelect].(id := r.id)
  }

  /** s_axi_rready_int_early */
  predicate Early(r: Regs, i: Inputs)
    requires Sized(r, i)
  {
    i.sReady[i.grant.s] || (!r.tempValid && (!r.rvalid[i.grant.s] || !IntValid(r, i)))
  }

  /** acknowledge, for the granted request */
  predicate Ack(r: Regs, i: Inputs)
    requires Sized(r, i)
  {
    i.grant.valid && if i.grant.read then r.rvalid[i.grant.s] && i.sReady[i.grant.s] && r.out.last else i.writeAck
  }

  function NextFsm(r: Regs, i: Inputs): Fsm
    requires Sized(r, i)
  {
    match r.fsm
    case Idle => if i.grant.valid then Decode else Idle
    case Decode => if !i.grant.read then Writing else if i.hit then Read else ReadDrop
    case Read => if IntValid(r, i) && i.mBeat[r.mSelect].last then WaitIdle else Read
    case ReadDrop => if r.intReady && r.len == 0 then WaitIdle else ReadDrop
    case Writing => if i.writeDone then WaitIdle else Writing
    case WaitIdle => if !i.grant.valid || Ack(r, i) then Idle else WaitIdle
  }

  /** m_axi_rready_next: the decode state drives the port selected before. */
  function NextReady(r: Regs, i: Inputs): (m: seq<bool>)
    requires Sized(r, i)
    ensures |m| == |r.mReady|
  {
    var none := seq(|r.mReady|, _ => false);
    if r.fsm.Decode? && i.grant.read && i.hit then none[r.mSelect := Early(r, i)]
    else if r.fsm.Read? && !(IntValid(r, i) && i.mBeat[r.mSelect].last) then none[r.mSelect := Early(r, i)]
    else none
  }

  /** The state machine's registers after the clock edge. */
  function Control(r: Regs, i: Inputs): Regs
    requires Sized(r, i)
  {
    r.(fsm := NextFsm(r, i),
       mSelect := if r.fsm.Decode? && i.hit then i.port else r.mSelect,
       mReady := NextReady(r, i),
       id := if r.fsm.Idle? && i.grant.valid && i.grant.read then i.arid else r.id,
       len := if r.fsm.Idle? && i.grant.valid && i.grant.read then i.arlen
              else if r.fsm.ReadDrop? && r.intReady then (r.len - 1) % 256 else r.len)
  }

  /** The R-channel registers after the clock edge, on top of c. */
  function Datapath(r: Regs, i: Inputs, c: Regs): Regs
    requires Sized(r, i)
  {
    var s := i.grant.s;
    var d := c.(intReady := Early(r, i));
    if r.intReady then
      if i.sReady[s] || !r.rvalid[s] then d.(rvalid := r.rvalid[s := IntValid(r, i)], out := IntBeat(r, i))
      else d.(tempValid := IntValid(r, i), temp := IntBeat(r, i))
    else if i.sReady[s] then d.(rvalid := r.rvalid[s := r.tempValid], out := r.temp, tempValid := false)
    else d
  }

  function Clock(r: Regs, i: Inputs): Regs
    requires Sized(r, i)
  {
    Datapath(r, i, Control(r, i))
  }

  // ---------- runs ----------

  /** A run so far: the registers, the last grant and whether it has been acknowledged, the beats taken in (with the
      slave port they are for, and the ARID of the read they answer), the beats handed over, and, for the current
      read, its length, its ARID, the master port it was decoded to, and its beats. */
  datatype Trace = Trace(r: Regs, grant: Grant, acked: bool, taken: seq<(nat, Beat)>, arids: seq<int>,
                         given: seq<(nat, Beat)>, request: int, arid: int, port: nat, burst: seq<Beat>)

  /** A beat is taken from the selected master port on its handshake, or made up in the drop state. */
  predicate Takes(r: Regs, i: Inputs)
    requires Sized(r, i)
  {
    if r.fsm.ReadDrop? then r.intReady else r.fsm.Read? && r.mReady[r.mSelect] && i.mValid[r.mSelect]
  }

  /** The handshake at the granted slave port. */
  predicate Gives(r: Regs, i: Inputs)
    requires Sized(r, i)
  {
    r.rvalid[i.grant.s] && i.sReady[i.grant.s]
  }

  /** What the environment promises: ARLEN has eight bits, the arbiter holds a grant until its acknowledge, and a
      write is acknowledged only after its data. Master ports may offer beats whenever they like. */
  predicate Allowed(t: Trace, i: Inputs) {
    && Sized(t.r, i) && i.arlen < 256
    && (t.grant.valid && !t.acked ==> i.grant == t.grant)
    && (i.writeAck ==> t.r.fsm.WaitIdle?)
  }

  function Next(t: Trace, i: Inputs): Trace
    requires Sized(t.r, i)
  {
    var beat := IntBeat(t.r, i);
    Trace(Clock(t.r, i), i.grant, Ack(t.r, i),
          if Takes(t.r, i) then t.taken + [(i.grant.s, beat)] else t.taken,
          if Takes(t.r, i) then t.arids + [t.arid] else t.arids,
          if Gives(t.r, i) then t.given + [(i.grant.s, t.r.out)] else t.given,
          if t.r.fsm.Idle? then i.arlen else t.request,
          if t.r.fsm.Idle? then i.arid else t.arid,
          if t.r.fsm.Decode? then i.port else t.port,
          if t.r.fsm.Idle? then [] else if Takes(t.r, i) then t.burst + [beat] else t.burst)
  }

  /** The registers after reset, for given port counts. */
  function Reset(S: nat, M: nat, junk: Beat): (t: Trace)
    requires S > 0 && M > 0
  {
    Trace(Regs(Idle, 0, seq(M, _ => false), 0, 0, seq(S, _ => false), junk, junk, false, false),
          Grant(false, false, 0), false, [], [], [], 0, 0, 0, [])
  }

  /** A run of the environment's inputs, all of them allowed. */
  predicate IsRun(t: Trace, inputs: seq<Inputs>)
    decreases |inputs|
  {
    inputs == [] || (Allowed(t, inputs[0]) && IsRun(Next(t, inputs[0]), inputs[1..]))
  }

  function After(t: Trace, inputs: seq<Inputs>): Trace
    requires IsRun(t, inputs)
    decreases |inputs|
  {
    if inputs == [] then t else After(Next(t, inputs[0]), inputs[1..])
  }

  // ---------- the invariant ----------

  /** The beats inside, oldest first. */
  function Inside(r: Regs, s: nat): seq<(nat, Beat)>
    requires s < |r.rvalid|
  {
    (if r.rvalid[s] then [(s, r.out)] else []) + (if r.tempValid then [(s, r.temp)] else [])
  }

  /** The temporary register is only used behind the output register, and never when the input is ready. */
  ghost predicate Skid(r: Regs, s: nat)
    requires s < |r.rvalid|
  {
    && (r.intReady ==> !r.tempValid)
    && (r.tempValid ==> r.rvalid[s])
    && (forall p :: 0 <= p < |r.rvalid| && p != s ==> !r.rvalid[p])
  }

  /** Which states can hold beats, and where the last beat of a burst is. */
  ghost predicate Lasts(t: Trace)
    requires t.grant.s < |t.r.rvalid|
  {
    var r := t.r;
    var s := t.grant.s;
    match r.fsm
    case Idle => !r.rvalid[s] && !r.tempValid
    case Decode => !r.rvalid[s] && !r.tempValid
    case Writing => !r.rvalid[s] && !r.tempValid && !t.grant.read
    case Read => t.grant.read && (r.rvalid[s] ==> !r.out.last) && (r.tempValid ==> !r.temp.last)
    case ReadDrop => t.grant.read && (r.rvalid[s] ==> !r.out.last) && (r.tempValid ==> !r.temp.last)
    case WaitIdle =>
      if !t.grant.read then !r.rvalid[s] && !r.tempValid
      else r.rvalid[s] && (if r.tempValid then r.temp.last && !r.out.last else r.out.last)
  }

  /** Only the read state lets master ports send, one port at a time, and then the input register is ready. */
  ghost predicate Readies(r: Regs) {
    && r.mSelect < |r.mReady|
    && (forall m, n :: 0 <= m < n < |r.mReady| ==> !r.mReady[m] || !r.mReady[n])
    && (!r.fsm.Read? ==> forall m :: 0 <= m < |r.mReady| ==> !r.mReady[m])
    && (r.fsm.Read? && r.mReady[r.mSelect] ==> r.intReady)
  }

  /** The error beats made up so far. */
  ghost predicate Drops(t: Trace) {
    && (t.r.fsm.Decode? && t.grant.read ==> t.burst == [] && t.r.len == t.request && 0 <= t.request < 256)
    && (t.r.fsm.ReadDrop? ==>
          && 0 <= t.r.len < 256 && |t.burst| + t.r.len == t.request
          && t.burst == ErrorBeats(t.r.id, |t.burst|, t.request))
  }

  /** The first n error beats of a read of length request + 1: decode errors, only the final one marked last. */
  function ErrorBeats(id: int, n: nat, request: int): seq<Beat> {
    seq(n, k requires 0 <= k < n => Beat(id, 0, 3, k == request, 0))
  }

  ghost predicate Good(t: Trace) {
    && t.grant.s < |t.r.rvalid| && Skid(t.r, t.grant.s) && Lasts(t) && Readies(t.r) && Drops(t)
    && (!t.r.fsm.Idle? ==> t.grant.valid && !t.acked)
    && t.taken == t.given + Inside(t.r, t.grant.s)
  }

  lemma ResetGood(S: nat, M: nat, junk: Beat)
    requires S > 0 && M > 0
    ensures Good(Reset(S, M, junk))
  {
  }

  /** While nothing is inside, it does not matter which port the arbiter points to. */
  lemma Repoint(t: Trace, i: Inputs)
    requires Good(t) && Allowed(t, i)
    ensures i.grant.s < |t.r.rvalid| && Skid(t.r, i.grant.s) && t.taken == t.given + Inside(t.r, i.grant.s)
    ensures Good(t.(grant := i.grant))
    ensures t.r.fsm.Idle? || i.grant == t.grant
  {
  }

  lemma {:induction false} SkidStep(r: Regs, i: Inputs)
    requires Sized(r, i) && Skid(r, i.grant.s)
    ensures Skid(Clock(r, i), i.grant.s)
  {
    hide NextFsm, NextReady, IntBeat, IntValid;
  }

  /** The buffer neither loses nor repeats nor reorders: what is taken is stored, what is given is removed. */
  lemma {:induction false} QueueStep(r: Regs, i: Inputs)
    requires Sized(r, i) && Skid(r, i.grant.s) && Readies(r)
    ensures var s := i.grant.s;
      Inside(r, s) + (if Takes(r, i) then [(s, IntBeat(r, i))] else []) ==
      (if Gives(r, i) then [(s, r.out)] else []) + Inside(Clock(r, i), s)
  {
    hide NextFsm, NextReady, IntBeat;
  }

  lemma {:induction false} LastsStep(t: Trace, i: Inputs)
    requires Good(t) && Allowed(t, i) && t.grant == i.grant
    ensures Lasts(Next(t, i))
  {
    hide NextReady, Drops, Inside;
  }

  /** Only the port selected before can be told to send, and only when the next state is the read state. */
  lemma NextReadyAt(r: Regs, i: Inputs)
    requires Sized(r, i)
    ensures forall m :: 0 <= m < |r.mReady| && NextReady(r, i)[m] ==>
      m == r.mSelect && Early(r, i) && NextFsm(r, i).Read?
  {
    hide IntBeat, IntValid, Early;
  }

  lemma {:induction false} ReadiesStep(r: Regs, i: Inputs)
    requires Sized(r, i) && Readies(r)
    ensures Readies(Clock(r, i))
  {
    hide IntBeat, IntValid, Early, NextReady;
    NextReadyAt(r, i);
  }

  lemma {:induction false} DropsStep(t: Trace, i: Inputs)
    requires Drops(t) && Allowed(t, i) && (t.r.fsm.Idle? || t.grant == i.grant)
    ensures Drops(Next(t, i))
  {
    hide NextReady, ErrorBeats, Datapath, Clock, Early, Ack, Gives;
    ControlLen(t.r, i);
    if t.r.fsm.Decode? {
      ErrorsNone(t.r.id, t.request);
    } else if t.r.fsm.ReadDrop? {
      ErrorsNext(t.r.id, |t.burst|, t.request);
    }
  }

  lemma ControlLen(r: Regs, i: Inputs)
    requires Sized(r, i)
    ensures var c, d := Control(r, i), Clock(r, i); d.fsm == c.fsm && d.len == c.len && d.id == c.id
  {
    hide NextReady, NextFsm, IntBeat, IntValid, Early;
  }

  lemma ErrorsNone(id: int, request: int)
    ensures ErrorBeats(id, 0, request) == []
  {
  }

  lemma ErrorsNext(id: int, n: nat, request: int)
    ensures ErrorBeats(id, n + 1, request) == ErrorBeats(id, n, request) + [Beat(id, 0, 3, n == request, 0)]
  {
  }

  /** Outside the idle state the grant stays, not yet acknowledged. */
  lemma GrantStep(t: Trace, i: Inputs)
    requires Good(t) && Allowed(t, i) && (t.r.fsm.Idle? || t.grant == i.grant)
    ensures !NextFsm(t.r, i).Idle? ==> i.grant.valid && !Ack(t.r, i)
  {
  }

  lemma NextParts(t: Trace, i: Inputs)
    requires Sized(t.r, i)
    ensures Next(t, i).r == Clock(t.r, i) && Clock(t.r, i).fsm == NextFsm(t.r, i)
    ensures |Clock(t.r, i).rvalid| == |t.r.rvalid| && |Clock(t.r, i).mReady| == |t.r.mReady|
  {
    hide NextReady, NextFsm, IntBeat, IntValid, Early;
  }

  /** The logs and the contents of the buffer move together. */
  lemma {:induction false} LogStep(t: Trace, i: Inputs)
    requires Allowed(t, i) && Skid(t.r, i.grant.s) && Readies(t.r) && t.taken == t.given + Inside(t.r, i.grant.s)
    ensures |Clock(t.r, i).rvalid| == |t.r.rvalid|
    ensures Next(t, i).taken == Next(t, i).given + Inside(Clock(t.r, i), i.grant.s)
  {
    hide Clock, IntBeat, Skid, Readies, Inside, Takes, Gives;
    NextParts(t, i);
    QueueStep(t.r, i);
    var s := i.grant.s;
    var T := if Takes(t.r, i) then [(s, IntBeat(t.r, i))] else [];
    var G := if Gives(t.r, i) then [(s, t.r.out)] else [];
    assert Next(t, i).taken == t.given + (Inside(t.r, s) + T);
    assert Next(t, i).given == t.given + G;
  }

  /** Each clock keeps the invariant. */
  lemma {:induction false} NextGood(t: Trace, i: Inputs)
    requires Good(t) && Allowed(t, i)
    ensures Good(Next(t, i))
  {
    hide Clock, NextFsm, IntBeat, Ack, Skid, Lasts, Readies, Drops, Inside, Takes, Gives;
    NextParts(t, i);
    GrantStep(t, i);
    Repoint(t, i);
    var u := t.(grant := i.grant);
    SkidStep(t.r, i);
    LogStep(t, i);
    LastsStep(u, i);
    ReadiesStep(t.r, i);
    DropsStep(t, i);
  }

  lemma {:induction false} RunGood(t: Trace, inputs: seq<Inputs>)
    requires Good(t) && IsRun(t, inputs)
    ensures Good(After(t, inputs))
    decreases |inputs|
  {
    hide Good, Next;
    if inputs != [] {
      NextGood(t, inputs[0]);
      RunGood(Next(t, inputs[0]), inputs[1..]);
    }
  }

  // ---------- what slaves and masters see ----------

  /** Over every run from reset: the beats given at the slave ports are a prefix of those taken, for the same ports and
      in the same order, at most two behind; when the state machine is idle nothing is missing. */
  lemma {:induction false} InOrder(S: nat, M: nat, junk: Beat, inputs: seq<Inputs>)
    requires S > 0 && M > 0 && IsRun(Reset(S, M, junk), inputs)
    ensures var t := After(Reset(S, M, junk), inputs);
            && t.given <= t.taken && |t.taken| <= |t.given| + 2
            && (t.r.fsm.Idle? ==> t.given == t.taken)
  {
    hide After, IsRun, Reset, Skid, Readies, Drops;
    ResetGood(S, M, junk);
    RunGood(Reset(S, M, junk), inputs);
  }

  /** A valid beat stays, unchanged, until it is accepted (section A3.2.1 of ARM IHI 0022). */
  lemma {:induction false} Stable(t: Trace, i: Inputs, p: nat)
    requires Good(t) && Allowed(t, i) && p < |t.r.rvalid| && t.r.rvalid[p] && !i.sReady[p]
    ensures Clock(t.r, i).rvalid[p] && Clock(t.r, i).out == t.r.out
  {
    hide NextFsm, NextReady, IntBeat, IntValid, Early, Drops, Readies;
  }

  /** Beats appear only at the slave port whose read has been granted. */
  lemma {:induction false} OnlyGranted(t: Trace, p: nat)
    requires Good(t) && p < |t.r.rvalid| && t.r.rvalid[p]
    ensures t.grant.valid && t.grant.read && p == t.grant.s
  {
  }

  // ---------- ready bits of ports that are not selected ----------

  /** Some port other than the selected one is told to send. */
  ghost predicate Stray(r: Regs) {
    exists m :: 0 <= m < |r.mReady| && m != r.mSelect && r.mReady[m]
  }

  /** A handshake at a master port. */
  predicate Handshake(r: Regs, i: Inputs, m: nat)
    requires Sized(r, i) && m < |r.mReady|
  {
    r.mReady[m] && i.mValid[m]
  }

  lemma EarlyInDecode(t: Trace, i: Inputs)
    requires Good(t) && Allowed(t, i) && t.r.fsm.Decode?
    ensures Early(t.r, i)
  {
  }

  /** The decode state drives the ready bit of the port selected before: after a clock the ready bit of a port that is
      not selected is up if and only if the clock decoded a read and that port was selected before it. */
  lemma {:induction false} StrayPort(t: Trace, i: Inputs, m: nat)
    requires Good(t) && Allowed(t, i) && m < |t.r.mReady| && m != Clock(t.r, i).mSelect
    ensures |Clock(t.r, i).mReady| == |t.r.mReady|
    ensures Clock(t.r, i).mReady[m] <==> t.r.fsm.Decode? && i.grant.read && i.hit && m == t.r.mSelect
  {
    hide Skid, Lasts, Drops, Early;
    if t.r.fsm.Decode? {
      EarlyInDecode(t, i);
    }
  }

  /** Some unselected port is told to send exactly after decoding a read to a port other than the one selected
      before. */
  lemma {:induction false} StrayIff(t: Trace, i: Inputs)
    requires Good(t) && Allowed(t, i)
    ensures Stray(Next(t, i).r) <==> t.r.fsm.Decode? && i.grant.read && i.hit && i.port != t.r.mSelect
  {
    hide Good, Early, NextFsm, NextReady, IntBeat, IntValid, Next;
    NextParts(t, i);
    var r := Clock(t.r, i);
    forall m | 0 <= m < |t.r.mReady| && m != r.mSelect
      ensures |r.mReady| == |t.r.mReady|
      ensures r.mReady[m] <==> t.r.fsm.Decode? && i.grant.read && i.hit && m == t.r.mSelect
    {
      StrayPort(t, i, m);
    }
    if t.r.fsm.Decode? && i.grant.read && i.hit && i.port != t.r.mSelect {
      assert r.mReady[t.r.mSelect];
    }
  }

  /** A handshake at a master port is taken in if and only if it is at the selected port; at any other port the beat
      is lost. */
  lemma {:induction false} HandshakeTakenIff(t: Trace, i: Inputs, m: nat)
    requires Good(t) && Allowed(t, i) && m < |t.r.mReady| && Handshake(t.r, i, m)
    ensures Takes(t.r, i) <==> m == t.r.mSelect
    ensures Next(t, i).taken == if m == t.r.mSelect then t.taken + [(t.grant.s, i.mBeat[m].(id := t.r.id))] else t.taken
  {
    hide Clock, Skid, Drops;
  }

  /** In this clock a beat is handed over by some master port, or made up. */
  ghost predicate Sends(r: Regs, i: Inputs)
    requires Sized(r, i)
  {
    || (r.fsm.ReadDrop? && r.intReady)
    || exists m :: 0 <= m < |r.mReady| && Handshake(r, i, m)
  }

  /** In this clock a port that is not selected hands over a beat. */
  ghost predicate StrayBeat(r: Regs, i: Inputs)
    requires Sized(r, i)
  {
    exists m :: 0 <= m < |r.mReady| && m != r.mSelect && Handshake(r, i, m)
  }

  /** The number of clocks of a run in which a beat is sent. */
  ghost function SentCount(t: Trace, inputs: seq<Inputs>): nat
    requires IsRun(t, inputs)
    decreases |inputs|
  {
    if inputs == [] then 0
    else (if Sends(t.r, inputs[0]) then 1 else 0) + SentCount(Next(t, inputs[0]), inputs[1..])
  }

  ghost function StrayCount(t: Trace, inputs: seq<Inputs>): nat
    requires IsRun(t, inputs)
    decreases |inputs|
  {
    if inputs == [] then 0
    else (if StrayBeat(t.r, inputs[0]) then 1 else 0) + StrayCount(Next(t, inputs[0]), inputs[1..])
  }

  lemma {:induction false} SendStep(t: Trace, i: Inputs)
    requires Good(t) && Allowed(t, i)
    ensures Sends(t.r, i) <==> Takes(t.r, i) || StrayBeat(t.r, i)
    ensures !(Takes(t.r, i) && StrayBeat(t.r, i))
  {
    hide Skid, Lasts, Drops;
    if m: nat :| m < |t.r.mReady| && Handshake(t.r, i, m) {
      HandshakeTakenIff(t, i, m);
    }
    assert Takes(t.r, i) && t.r.fsm.Read? ==> Handshake(t.r, i, t.r.mSelect);
  }

  /** Over every run: of the beats sent, exactly those handed over at ports that are not selected are lost. */
  lemma {:induction false} LossIsStray(t: Trace, inputs: seq<Inputs>)
    requires Good(t) && IsRun(t, inputs)
    ensures |After(t, inputs).taken| == |t.taken| + SentCount(t, inputs) - StrayCount(t, inputs)
    decreases |inputs|
  {
    hide Good, Clock, Takes, Sends, StrayBeat, Gives;
    if inputs != [] {
      NextGood(t, inputs[0]);
      SendStep(t, inputs[0]);
      LossIsStray(Next(t, inputs[0]), inputs[1..]);
    }
  }

  lemma AfterOne(t: Trace, i: Inputs)
    requires Allowed(t, i)
    ensures IsRun(t, [i]) && After(t, [i]) == Next(t, i)
  {
    hide Next;
    assert [i][1..] == [];
  }

  lemma AfterTwo(t: Trace, i: Inputs, j: Inputs)
    requires Allowed(t, i) && Allowed(Next(t, i), j)
    ensures IsRun(t, [i, j]) && After(t, [i, j]) == Next(Next(t, i), j)
  {
    hide Next;
    AfterOne(Next(t, i), j);
    assert [i, j][1..] == [j];
  }

  /** An instance: two clocks after reset, with port 1 selected, the ready bit of port 0 is up, and if port 0 answers
      its beat is lost. */
  lemma {:induction false} StrayReady(S: nat, M: nat, junk: Beat, idle: Inputs) returns (inputs: seq<Inputs>)
    requires S > 0 && M > 1 && Sized(Reset(S, M, junk).r, idle)
    ensures IsRun(Reset(S, M, junk), inputs)
    ensures var r := After(Reset(S, M, junk), inputs).r;
            r.fsm.Read? && r.mSelect == 1 && |r.mReady| > 1 && r.mReady[0] && !r.mReady[1]
  {
    hide IsRun, After;
    var i0 := idle.(grant := Grant(true, true, 0), arlen := 0, writeAck := false);
    var i1 := i0.(hit := true, port := 1);
    inputs := [i0, i1];
    AfterTwo(Reset(S, M, junk), i0, i1);
  }

  // ---------- the read that is served ----------

  /** The beats of a burst that is not finished: the id of the read, none of them last. */
  ghost predicate Running(burst: seq<Beat>, arid: int) {
    forall k :: 0 <= k < |burst| ==> burst[k].id == arid && !burst[k].last
  }

  /** The latched id and port are those of the read being served; a burst ends with its first last beat; every beat
      taken so far carries the ARID of its read. */
  ghost predicate Serves(t: Trace) {
    && (!t.r.fsm.Idle? && t.grant.read ==> t.r.id == t.arid)
    && (t.r.fsm.Decode? ==> t.burst == [])
    && (t.r.fsm.Read? ==> t.r.mSelect == t.port && Running(t.burst, t.arid))
    && (t.r.fsm.WaitIdle? && t.grant.read ==>
          var n := |t.burst| - 1;
          n >= 0 && t.burst[n].id == t.arid && t.burst[n].last && (forall k :: 0 <= k < n ==> !t.burst[k].last))
    && |t.arids| == |t.taken|
    && forall k :: 0 <= k < |t.taken| ==> t.taken[k].1.id == t.arids[k]
  }

  lemma ResetServes(S: nat, M: nat, junk: Beat)
    requires S > 0 && M > 0
    ensures Serves(Reset(S, M, junk))
  {
  }

  /** What is taken answers the read being served: the beat of the decoded port with the id of the read, or an error
      beat with that id. */
  lemma {:induction false} TakenIs(t: Trace, i: Inputs)
    requires Good(t) && Serves(t) && Allowed(t, i) && Takes(t.r, i)
    ensures i.grant.read && IntBeat(t.r, i).id == t.arid
    ensures t.r.fsm.Read? ==> t.port < |i.mBeat| && Handshake(t.r, i, t.port)
    ensures t.r.fsm.Read? ==> IntBeat(t.r, i) == i.mBeat[t.port].(id := t.arid)
    ensures t.r.fsm.ReadDrop? ==> IntBeat(t.r, i) == Beat(t.arid, 0, 3, |t.burst| == t.request, 0)
  {
    hide Skid, Early, Readies;
  }

  lemma {:induction false} LogServes(t: Trace, i: Inputs)
    requires Good(t) && Serves(t) && Allowed(t, i)
    ensures var n := Next(t, i);
            |n.arids| == |n.taken| && forall k :: 0 <= k < |n.taken| ==> n.taken[k].1.id == n.arids[k]
  {
    hide Good, Takes, Gives, Clock, IntBeat, Ack;
    if Takes(t.r, i) {
      TakenIs(t, i);
    }
  }

  lemma {:induction false} ServesStep(t: Trace, i: Inputs)
    requires Good(t) && Serves(t) && Allowed(t, i)
    ensures Serves(Next(t, i))
  {
    hide Skid, Early, Readies, Inside, NextReady, Datapath;
    LogServes(t, i);
    NextParts(t, i);
    ControlPart(t.r, i);
    if t.r.fsm.ReadDrop? && Takes(t.r, i) {
      ErrorsRun(t);
    }
  }

  /** The error beats before the final one are not last. */
  lemma ErrorsRun(t: Trace)
    requires Drops(t) && t.r.fsm.ReadDrop?
    ensures forall k :: 0 <= k < |t.burst| ==> !t.burst[k].last
  {
  }

  lemma ControlPart(r: Regs, i: Inputs)
    requires Sized(r, i)
    ensures var c, d := Control(r, i), Clock(r, i); d.fsm == c.fsm && d.mSelect == c.mSelect && d.id == c.id
  {
    hide NextReady, NextFsm, IntBeat, IntValid, Early;
  }

  lemma {:induction false} RunServes(t: Trace, inputs: seq<Inputs>)
    requires Good(t) && Serves(t) && IsRun(t, inputs)
    ensures Good(After(t, inputs)) && Serves(After(t, inputs))
    decreases |inputs|
  {
    hide Good, Serves, Next;
    if inputs != [] {
      NextGood(t, inputs[0]);
      ServesStep(t, inputs[0]);
      RunServes(Next(t, inputs[0]), inputs[1..]);
    }
  }

  /** Over every run from reset, every beat handed over at a slave port carries the ARID of the read it answers. */
  lemma {:induction false} GivenIds(S: nat, M: nat, junk: Beat, inputs: seq<Inputs>)
    requires S > 0 && M > 0 && IsRun(Reset(S, M, junk), inputs)
    ensures var t := After(Reset(S, M, junk), inputs);
            |t.given| <= |t.arids| && forall k :: 0 <= k < |t.given| ==> t.given[k].1.id == t.arids[k]
  {
    hide After, IsRun, Reset, Good;
    ResetGood(S, M, junk);
    ResetServes(S, M, junk);
    RunServes(Reset(S, M, junk), inputs);
    InOrder(S, M, junk, inputs);
  }

  /** How a read proceeds: accepted with a grant, decoded to the matching port or to error beats, finished by its last
      beat, and acknowledged when this beat has been handed over. */
  lemma {:induction false} ReadPhases(t: Trace, i: Inputs)
    requires Good(t) && Allowed(t, i)
    ensures t.r.fsm.Idle? ==> Next(t, i).r.fsm == if i.grant.valid then Decode else Idle
    ensures t.r.fsm.Decode? && i.grant.read ==> Next(t, i).r.fsm == if i.hit then Read else ReadDrop
    ensures t.r.fsm.Decode? && i.hit ==> Next(t, i).r.mSelect == i.port
    ensures t.r.fsm.Read? ==>
      Next(t, i).r.fsm == if Takes(t.r, i) && IntBeat(t.r, i).last then WaitIdle else Read
    ensures t.r.fsm.ReadDrop? ==>
      Next(t, i).r.fsm == if Takes(t.r, i) && IntBeat(t.r, i).last then WaitIdle else ReadDrop
    ensures t.r.fsm.WaitIdle? && i.grant.read ==>
      Next(t, i).r.fsm == if Gives(t.r, i) && t.r.out.last then Idle else WaitIdle
  {
    hide Skid, Early, Lasts, Drops, Inside, NextReady, Datapath;
    NextParts(t, i);
    ControlPart(t.r, i);
  }

  /** A read that was decoded to a port gets that port's beats up to and including the first last one, all with the id
      of the read. */
  lemma {:induction false} BurstComplete(t: Trace, i: Inputs)
    requires Good(t) && Serves(t) && Allowed(t, i) && t.r.fsm.Read? && Next(t, i).r.fsm != Read
    ensures Next(t, i).r.fsm.WaitIdle?
    ensures Next(t, i).burst == t.burst + [i.mBeat[t.port].(id := t.arid)] && i.mBeat[t.port].last
    ensures forall k :: 0 <= k < |t.burst| ==> t.burst[k].id == t.arid && !t.burst[k].last
  {
    hide Good, Clock, Gives, Ack;
    ReadPhases(t, i);
    TakenIs(t, i);
  }

  /** Before the first clock the input may be closed although the buffer is empty. */
  ghost predicate Warm(r: Regs, s: nat)
    requires s < |r.rvalid|
  {
    r.intReady || r.tempValid || !r.rvalid[s]
  }

  /** After every clock the input is ready exactly when the temporary register is empty. */
  lemma {:induction false} ReadyExact(t: Trace, i: Inputs)
    requires Good(t) && Allowed(t, i) && Warm(t.r, t.grant.s)
    ensures Clock(t.r, i).intReady <==> !Clock(t.r, i).tempValid
    ensures i.grant.s < |Clock(t.r, i).rvalid| && Warm(Clock(t.r, i), i.grant.s)
  {
    hide NextFsm, NextReady, IntBeat, Drops, Readies;
    Repoint(t, i);
  }

  /** A burst goes on: in the read state, unless the last beat is taken, the selected port is told to send exactly when
      the buffer has room for a beat, and no other port is. */
  lemma {:induction false} ReadContinues(t: Trace, i: Inputs, m: nat)
    requires Good(t) && Allowed(t, i) && Warm(t.r, t.grant.s) && t.r.fsm.Read? && m < |t.r.mReady|
    requires !(Takes(t.r, i) && IntBeat(t.r, i).last)
    ensures |Next(t, i).r.mReady| == |t.r.mReady| && Next(t, i).r.mSelect == t.r.mSelect
    ensures Next(t, i).r.mReady[m] <==> m == t.r.mSelect && !Next(t, i).r.tempValid
  {
    hide Skid, Early, Lasts, Drops, Inside, Warm;
    ReadyExact(t, i);
  }

  /** A read without a matching master port gets exactly arlen + 1 decode-error beats, only the final one last. */
  lemma {:induction false} DropComplete(t: Trace, i: Inputs)
    requires Good(t) && Serves(t) && Allowed(t, i) && t.r.fsm.ReadDrop? && Next(t, i).r.fsm != ReadDrop
    ensures Next(t, i).r.fsm.WaitIdle? && t.request >= 0
    ensures Next(t, i).burst == ErrorBeats(t.arid, t.request + 1, t.request)
    ensures forall k :: 0 <= k <= t.request ==> Next(t, i).burst[k] == Beat(t.arid, 0, 3, k == t.request, 0)
  {
    hide NextReady, Skid, Readies;
  }

  // ---------- the clocked module ----------

  /** The state machine does not touch the R-channel registers. */
  lemma ControlKeeps(r: Regs, i: Inputs)
    requires Sized(r, i)
    ensures var c := Control(r, i);
            && c.rvalid == r.rvalid && c.out == r.out && c.temp == r.temp
            && c.tempValid == r.tempValid && c.intReady == r.intReady
  {
  }

  class ReadPath {
    var state_reg: Fsm
    var m_select_reg: nat
    var m_axi_rready_reg: seq<bool>
    var axi_id_reg: int
    var axi_len_reg: int
    var s_axi_rvalid_reg: seq<bool>
    var out_reg: Beat
    var temp_reg: Beat
    var temp_s_axi_rvalid_reg: bool
    var s_axi_rready_int_reg: bool

    ghost function Registers(): Regs
      reads this
    {
      Regs(state_reg, m_select_reg, m_axi_rready_reg, axi_id_reg, axi_len_reg, s_axi_rvalid_reg, out_reg, temp_reg,
           temp_s_axi_rvalid_reg, s_axi_rready_int_reg)
    }

    /** rst */
    constructor (S: nat, M: nat, junk: Beat)
      requires S > 0 && M > 0
      ensures Registers() == Reset(S, M, junk).r
    {
      state_reg, m_select_reg, axi_id_reg, axi_len_reg := Idle, 0, 0, 0;
      m_axi_rready_reg, s_axi_rvalid_reg := seq(M, _ => false), seq(S, _ => false);
      out_reg, temp_reg, temp_s_axi_rvalid_reg, s_axi_rready_int_reg := junk, junk, false, false;
    }

    /** The branch STATE_DECODE of the always @* block, for the state and the ready bits. */
    method InDecode(i: Inputs, early: bool) returns (state_next: Fsm, rready_next: seq<bool>)
      requires Sized(Registers(), i) && state_reg == Decode && early == Early(Registers(), i)
      ensures state_next == NextFsm(Registers(), i) && rready_next == NextReady(Registers(), i)
    {
      hide Early, IntBeat, IntValid;
      rready_next := seq(|m_axi_rready_reg|, _ => false);
      if !i.grant.read {
        state_next := Writing;
      } else if i.hit {
        rready_next := rready_next[m_select_reg := early];
        state_next := Read;
      } else {
        state_next := ReadDrop;
      }
    }

    /** The branch STATE_READ. */
    method InRead(i: Inputs, early: bool, s_axi_rvalid_int: bool) returns (state_next: Fsm, rready_next: seq<bool>)
      requires Sized(Registers(), i) && state_reg == Read
      requires early == Early(Registers(), i) && s_axi_rvalid_int == IntValid(Registers(), i)
      ensures state_next == NextFsm(Registers(), i) && rready_next == NextReady(Registers(), i)
    {
      hide Early, IntBeat, IntValid;
      ghost var none := seq(|m_axi_rready_reg|, _ => false);
      rready_next := seq(|m_axi_rready_reg|, _ => false);
      rready_next := rready_next[m_select_reg := early];
      if s_axi_rvalid_int && i.mBeat[m_select_reg].last {
        rready_next := rready_next[m_select_reg := false];
        assert rready_next == none;
        state_next := WaitIdle;
      } else {
        state_next := Read;
      }
    }

    /** The branch STATE_WAIT_IDLE. */
    method InWaitIdle(i: Inputs) returns (state_next: Fsm)
      requires Sized(Registers(), i) && state_reg == WaitIdle
      ensures state_next == NextFsm(Registers(), i)
    {
      var ack := i.grant.valid && if i.grant.read
        then s_axi_rvalid_reg[i.grant.s] && i.sReady[i.grant.s] && out_reg.last else i.writeAck;
      state_next := if !i.grant.valid || ack then Idle else WaitIdle;
    }

    /** The always @* block of the state machine, restricted to the read path, followed by its clock edge; the
        internal beat is handed to the datapath. */
    method ControlEdge(i: Inputs, early: bool, s_axi_rvalid_int: bool)
      requires Sized(Registers(), i)
      requires early == Early(Registers(), i) && s_axi_rvalid_int == IntValid(Registers(), i)
      modifies this`state_reg, this`m_select_reg, this`m_axi_rready_reg, this`axi_id_reg, this`axi_len_reg
      ensures Registers() == Control(old(Registers()), i)
    {
      hide Early, IntBeat, IntValid, Ack;
      var state_next := Idle;
      var m_select_next := m_select_reg;
      var axi_id_next := axi_id_reg;
      var axi_len_next := axi_len_reg;
      var rready_next := seq(|m_axi_rready_reg|, _ => false);
      match state_reg {
        case Idle =>
          if i.grant.valid {
            if i.grant.read {
              axi_id_next := i.arid;
              axi_len_next := i.arlen;
            }
            state_next := Decode;
          }
        case Decode =>
          if i.hit {
            m_select_next := i.port;
          }
          state_next, rready_next := InDecode(i, early);
        case Read =>
          state_next, rready_next := InRead(i, early, s_axi_rvalid_int);
        case ReadDrop =>
          state_next := ReadDrop;
          if s_axi_rready_int_reg {
            axi_len_next := (axi_len_reg - 1) % 256;
            if axi_len_reg == 0 {
              state_next := WaitIdle;
            }
          }
        case Writing =>
          state_next := if i.writeDone then WaitIdle else Writing;
        case WaitIdle =>
          state_next := InWaitIdle(i);
      }
      state_reg, m_select_reg, m_axi_rready_reg := state_next, m_select_next, rready_next;
      axi_id_reg, axi_len_reg := axi_id_next, axi_len_next;
    }

    /** The always @* block of the R datapath and its clock edge; r are the registers before the clock, of which the
        control part has already changed. */
    method DataEdge(i: Inputs, early: bool, s_axi_rvalid_int: bool, int_beat: Beat, ghost r: Regs, ghost c: Regs)
      requires Sized(r, i) && early == Early(r, i) && s_axi_rvalid_int == IntValid(r, i) && int_beat == IntBeat(r, i)
      requires Registers() == c && c.rvalid == r.rvalid && c.out == r.out && c.temp == r.temp
      requires c.tempValid == r.tempValid && c.intReady == r.intReady
      modifies this`s_axi_rvalid_reg, this`s_axi_rready_int_reg, this`temp_s_axi_rvalid_reg, this`out_reg, this`temp_reg
      ensures Registers() == Datapath(r, i, c)
    {
      hide Early, IntBeat, IntValid;
      var s := i.grant.s;
      var store_int_to_output, store_int_to_temp, store_temp_to_output := false, false, false;
      var rvalid_next, temp_next := s_axi_rvalid_reg, temp_s_axi_rvalid_reg;
      if s_axi_rready_int_reg {
        if i.sReady[s] || !s_axi_rvalid_reg[s] {
          rvalid_next := rvalid_next[s := s_axi_rvalid_int];
          store_int_to_output := true;
        } else {
          temp_next := s_axi_rvalid_int;
          store_int_to_temp := true;
        }
      } else if i.sReady[s] {
        rvalid_next := rvalid_next[s := temp_s_axi_rvalid_reg];
        temp_next := false;
        store_temp_to_output := true;
      }
      s_axi_rvalid_reg, s_axi_rready_int_reg, temp_s_axi_rvalid_reg := rvalid_next, early, temp_next;
      if store_int_to_output {
        out_reg := int_beat;
      } else if store_temp_to_output {
        out_reg := temp_reg;
      }
      if store_int_to_temp {
        temp_reg := int_beat;
      }
    }

    /** One clock. */
    method Tick(i: Inputs)
      requires Sized(Registers(), i)
      modifies this
      ensures Registers() == Clock(old(Registers()), i)
    {
      hide Control, Datapath;
      ghost var r := Registers();
      ControlKeeps(r, i);
      var s := i.grant.s;
      var dropping := state_reg == ReadDrop;
      var s_axi_rvalid_int :=
        (state_reg == Read && m_axi_rready_reg[m_select_reg] && i.mValid[m_select_reg]) || dropping;
      var int_beat :=
        if dropping then Beat(axi_id_reg, 0, 3, axi_len_reg == 0, 0) else i.mBeat[m_select_reg].(id := axi_id_reg);
      var early := i.sReady[s] || (!temp_s_axi_rvalid_reg && (!s_axi_rvalid_reg[s] || !s_axi_rvalid_int));
      ControlEdge(i, early, s_axi_rvalid_int);
      DataEdge(i, early, s_axi_rvalid_int, int_beat, r, Control(r, i));
    }
  }
}
