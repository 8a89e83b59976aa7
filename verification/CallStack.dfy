/** The Callstack view at a replay position (src/debugAdapter/callStack.ts). */
module CallStack {
  import opened Prelude
  import opened Frames

  datatype MappedLocation = MappedLocation(path: string, line: int)

  /** A host-level contract invocation, as the ledger image reports it. */
  datatype ContractCall = ContractCall(contract: string, callee: string)

  datatype FrameKind = Rust | Inline | Wasm

  datatype CallFrame =
    | Code(level: nat, kind: FrameKind, stateIndex: nat, pc: Option<int>, source: Option<MappedLocation>)
    | Contract(level: nat, call: ContractCall)

  /** What the walk reads beside the frames; the DWARF side is arbitrary. */
  datatype Mapping = Mapping(
    positions: Positions,
    locationForIndex: nat -> Option<MappedLocation>,
    // call-site locations of the frames inlined at a pc, outermost first
    inlineCallSites: int -> seq<Option<MappedLocation>>
  )

  /** The nearest validated code offset at or before record `n - 1`, among the first `n`. */
  function PcBefore(positions: Positions, n: nat): Option<int> {
    if n == 0 then None
    else if PositionAt(positions, n - 1).Some? then PositionAt(positions, n - 1)
    else PcBefore(positions, n - 1)
  }

  method PcAtIndex(positions: Positions, index: nat) returns (pc: Option<int>)
    ensures pc == PcBefore(positions, index + 1)
    ensures pc.Some? <==> exists j: nat :: j <= index && PositionAt(positions, j).Some?
    ensures pc.Some? ==> exists j: nat :: j <= index && PositionAt(positions, j) == pc
                                          && forall k: nat :: j < k <= index ==> PositionAt(positions, k).None?
  {
    var n := index + 1;
    while n > 0
      invariant 0 <= n <= index + 1
      invariant PcBefore(positions, index + 1) == PcBefore(positions, n)
      invariant forall k: nat :: n <= k <= index ==> PositionAt(positions, k).None?
    {
      pc := PositionAt(positions, n - 1);
      if pc.Some? {
        return;
      }
      n := n - 1;
    }
    return None;
  }

  /** `pc` is the nearest validated offset at or before record `at`. */
  ghost predicate IsNearestPc(positions: Positions, at: nat, pc: Option<int>) {
    match pc
    case None => forall j: nat :: j <= at ==> PositionAt(positions, j).None?
    case Some(_) =>
      exists j: nat :: j <= at && PositionAt(positions, j) == pc
                       && forall k: nat :: j < k <= at ==> PositionAt(positions, k).None?
  }

  /** The call sites of the frames inlined at record `at`, outermost first. */
  function InlinesAt(mapping: Mapping, at: nat): seq<Option<MappedLocation>> {
    var pc := PcBefore(mapping.positions, at + 1);
    if pc.None? then [] else mapping.inlineCallSites(pc.value)
  }

  /**
   * The frames one activation at record `at` expands to, innermost first: the frames inlined into it, then
   * the activation itself. The innermost stands where the line table points, and the frame below inline `k`
   * (counted from the outermost) at that inline's call site, so the activation at the outermost's.
   */
  ghost predicate IsActivation(mapping: Mapping, at: nat, level: nat, frames: seq<CallFrame>) {
    var pc := PcBefore(mapping.positions, at + 1);
    var sites := if pc.None? then [] else mapping.inlineCallSites(pc.value);
    && IsNearestPc(mapping.positions, at, pc) && |frames| == |sites| + 1
    && (forall j :: 0 <= j < |frames| ==>
          frames[j].Code? && frames[j].level == level + j && frames[j].stateIndex == at && frames[j].pc == pc)
    && frames[0].source == mapping.locationForIndex(at)
    && (forall k :: 0 <= k < |sites| ==> frames[|sites| - k].source == sites[k])
    && (forall j :: 0 <= j < |sites| ==> frames[j].kind == Inline)
    && frames[|sites|].kind == (if frames[|sites|].source.None? then Wasm else Rust)
  }

  lemma ActivationLength(mapping: Mapping, at: nat, level: nat, frames: seq<CallFrame>)
    requires IsActivation(mapping, at, level, frames)
    ensures |frames| == |InlinesAt(mapping, at)| + 1
  {
  }

  method PushActivation(mapping: Mapping, built: seq<CallFrame>, at: nat) returns (next: seq<CallFrame>)
    ensures built <= next && IsActivation(mapping, at, |built|, next[|built|..])
  {
    var pc := PcAtIndex(mapping.positions, at);
    var inlines := if pc.None? then [] else mapping.inlineCallSites(pc.value);
    assert IsNearestPc(mapping.positions, at, pc);
    hide IsNearestPc, PcBefore;
    var below := mapping.locationForIndex(at);
    next := built;
    var i := |inlines|;
    ghost var n := |built|;
    while i > 0
      invariant 0 <= i <= |inlines|
      invariant built <= next && |next| == n + |inlines| - i
      invariant below == if i == |inlines| then mapping.locationForIndex(at) else inlines[i]
      invariant forall j :: n <= j < |next| ==>
                  next[j].Code? && next[j].level == j && next[j].stateIndex == at && next[j].pc == pc
      invariant forall j :: n <= j < |next| ==> next[j].kind == Inline
      invariant |next| > n ==> next[n].source == mapping.locationForIndex(at)
      invariant forall j :: n < j < |next| ==> next[j].source == inlines[|inlines| - (j - n)]
    {
      i := i - 1;
      next := next + [Code(|next|, Inline, at, pc, below)];
      below := inlines[i];
    }
    next := next + [Code(|next|, if below.None? then Wasm else Rust, at, pc, below)];
  }

  // ----- The activation walk -----

  /** The records the activations stand at, innermost first: the cursor, then each call site outward. */
  function Standing(f: WasmFrame, at: nat): (r: seq<nat>)
    ensures |r| >= 1 && r[0] == at
  {
    [at] + if f.callSite.Some? && f.caller.Some? then Standing(f.caller.value, f.callSite.value) else []
  }

  function StandingAt(frame: Option<WasmFrame>, index: nat): seq<nat> {
    if frame.None? then [index] else Standing(frame.value, index)
  }

  /** The expansion of the activations standing at `at`, numbered outward from `level`. */
  ghost predicate IsExpansion(mapping: Mapping, at: seq<nat>, level: nat, frames: seq<CallFrame>)
    decreases |at|
  {
    if at == [] then frames == []
    else
      var n := |InlinesAt(mapping, at[0])| + 1;
      && n <= |frames|
      && IsActivation(mapping, at[0], level, frames[..n])
      && IsExpansion(mapping, at[1..], level + n, frames[n..])
  }

  lemma OneExpansion(mapping: Mapping, at: nat, level: nat, frames: seq<CallFrame>)
    requires IsActivation(mapping, at, level, frames)
    ensures IsExpansion(mapping, [at], level, frames)
  {
    hide IsActivation, InlinesAt;
    ActivationLength(mapping, at, level, frames);
    assert frames[..|frames|] == frames && [at][1..] == [];
  }

  lemma ExpansionCons(mapping: Mapping, first: nat, rest: seq<nat>, level: nat, frames: seq<CallFrame>, n: nat)
    requires n == |InlinesAt(mapping, first)| + 1 <= |frames|
    requires IsActivation(mapping, first, level, frames[..n])
    requires IsExpansion(mapping, rest, level + n, frames[n..])
    ensures IsExpansion(mapping, [first] + rest, level, frames)
  {
    hide IsActivation, InlinesAt;
    assert ([first] + rest)[1..] == rest;
  }

  lemma CutAfter(a: seq<CallFrame>, b: seq<CallFrame>, n: nat)
    requires n <= |a|
    ensures (a + b)[..n] == a[..n] && (a + b)[n..] == a[n..] + b
  {
  }

  lemma {:induction false} ExpansionAppend(
    mapping: Mapping, at: seq<nat>, level: nat, frames: seq<CallFrame>, last: nat, tail: seq<CallFrame>)
    requires IsExpansion(mapping, at, level, frames)
    requires IsActivation(mapping, last, level + |frames|, tail)
    ensures IsExpansion(mapping, at + [last], level, frames + tail)
    decreases |at|
  {
    hide IsActivation, InlinesAt;
    if at == [] {
      assert frames + tail == tail && at + [last] == [last];
      OneExpansion(mapping, last, level, tail);
    } else {
      var n := |InlinesAt(mapping, at[0])| + 1;
      ExpansionAppend(mapping, at[1..], level + n, frames[n..], last, tail);
      CutAfter(frames, tail, n);
      hide IsExpansion;
      ExpansionCons(mapping, at[0], at[1..] + [last], level, frames + tail, n);
      assert [at[0]] + (at[1..] + [last]) == at + [last];
    }
  }

  method PushNextActivation(mapping: Mapping, built: seq<CallFrame>, ghost done: seq<nat>, at: nat)
    returns (next: seq<CallFrame>)
    requires IsExpansion(mapping, done, 0, built)
    ensures IsExpansion(mapping, done + [at], 0, next) && next != []
  {
    hide IsActivation, InlinesAt;
    next := PushActivation(mapping, built, at);
    ActivationLength(mapping, at, |built|, next[|built|..]);
    ExpansionAppend(mapping, done, 0, built, at, next[|built|..]);
    assert built + next[|built|..] == next;
  }

  lemma StandingUnfolds(done: seq<nat>, f: WasmFrame, at: nat)
    ensures done + Standing(f, at) ==
            if f.caller.Some? && f.callSite.Some? then (done + [at]) + Standing(f.caller.value, f.callSite.value)
            else done + [at]
  {
  }

  /** The activation walk of `buildCallStack`: innermost first, outward over call sites. */
  method PushActivations(frame: Option<WasmFrame>, mapping: Mapping, index: nat) returns (built: seq<CallFrame>)
    ensures IsExpansion(mapping, StandingAt(frame, index), 0, built)
  {
    built := [];
    ghost var done: seq<nat> := [];
    if frame.Some? {
      var activation := frame;
      var at := Some(index);
      while activation.Some? && at.Some?
        invariant IsExpansion(mapping, done, 0, built)
        invariant built == [] ==> activation.Some? && at.Some?
        invariant Standing(frame.value, index) ==
                  if activation.Some? && at.Some? then done + Standing(activation.value, at.value) else done
        decreases activation
      {
        StandingUnfolds(done, activation.value, at.value);
        built := PushNextActivation(mapping, built, done, at.value);
        done := done + [at.value];
        at := activation.value.callSite;
        activation := activation.value.caller;
      }
    }
    if built == [] {
      built := PushNextActivation(mapping, built, done, index);
    }
  }

  method BuildCallStack(frames: seq<Option<WasmFrame>>, mapping: Mapping, calls: Option<seq<ContractCall>>, index: nat)
    returns (built: seq<CallFrame>)
    requires index < |frames|
    ensures var open := if calls.Some? then calls.value else [];
            && |built| >= |open|
            && IsExpansion(mapping, StandingAt(frames[index], index), 0, built[..|built| - |open|])
            && forall k :: 0 <= k < |open| ==>
                 built[|built| - |open| + k] == Contract(|built| - |open| + k, open[k])
  {
    hide IsActivation, InlinesAt, IsExpansion;
    var code := PushActivations(frames[index], mapping, index);
    built := code;
    assert built[..|built|] == built;
    if calls.Some? {
      for k := 0 to |calls.value|
        invariant |built| == |code| + k && built[..|code|] == code
        invariant forall j :: 0 <= j < k ==> built[|code| + j] == Contract(|code| + j, calls.value[j])
      {
        built := built + [Contract(|built|, calls.value[k])];
      }
    }
  }

  /** The frames that are activations: neither inlined into one nor a contract boundary. */
  function CountActivations(frames: seq<CallFrame>): nat {
    if frames == [] then 0
    else (if frames[0].Code? && frames[0].kind != Inline then 1 else 0) + CountActivations(frames[1..])
  }

  lemma {:induction false} CountActivationsAppend(a: seq<CallFrame>, b: seq<CallFrame>)
    ensures CountActivations(a + b) == CountActivations(a) + CountActivations(b)
  {
    if a == [] {
      assert a + b == b;
    } else {
      CountActivationsAppend(a[1..], b);
      assert (a + b)[1..] == a[1..] + b;
    }
  }

  lemma {:induction false} CountNone(frames: seq<CallFrame>)
    requires forall k :: 0 <= k < |frames| ==> frames[k].Contract? || frames[k].kind == Inline
    ensures CountActivations(frames) == 0
  {
    if frames != [] {
      CountNone(frames[1..]);
    }
  }

  lemma ActivationCounts(mapping: Mapping, at: nat, level: nat, frames: seq<CallFrame>)
    requires IsActivation(mapping, at, level, frames)
    ensures CountActivations(frames) == 1
    ensures forall k :: 0 <= k < |frames| ==> frames[k].Code? && frames[k].level == level + k
  {
    var n := |frames| - 1;
    assert frames == frames[..n] + [frames[n]];
    CountNone(frames[..n]);
    CountActivationsAppend(frames[..n], [frames[n]]);
  }

  lemma {:induction false} ExpansionCounts(mapping: Mapping, at: seq<nat>, level: nat, frames: seq<CallFrame>)
    requires IsExpansion(mapping, at, level, frames)
    ensures CountActivations(frames) == |at|
    ensures forall k :: 0 <= k < |frames| ==> frames[k].Code? && frames[k].level == level + k
  {
    hide IsActivation, InlinesAt;
    if at != [] {
      var n := |InlinesAt(mapping, at[0])| + 1;
      ExpansionCounts(mapping, at[1..], level + n, frames[n..]);
      ActivationCounts(mapping, at[0], level, frames[..n]);
      assert frames == frames[..n] + frames[n..];
      CountActivationsAppend(frames[..n], frames[n..]);
      forall k | 0 <= k < n ensures frames[k].Code? && frames[k].level == level + k {
        assert frames[k] == frames[..n][k];
      }
      forall k | n <= k < |frames| ensures frames[k].Code? && frames[k].level == level + k {
        assert frames[k] == frames[n..][k - n];
      }
    }
  }

  /** Activations of depth `depth`, `depth - 1`, ... standing where each was the executing frame. */
  ghost predicate StandsOnChain(records: seq<Opcode>, frames: seq<Option<WasmFrame>>, at: seq<nat>, depth: int) {
    && (forall k :: 0 <= k < |at| ==>
          at[k] < |records| && at[k] < |frames| && frames[at[k]].Some? && frames[at[k]].value.depth == depth - k)
    && (forall k {:trigger at[k]} :: 0 < k < |at| ==>
          && at[k] < at[k - 1] && records[at[k]].IsCall()
          && frames[at[k - 1]].value.caller == frames[at[k]])
  }

  lemma ChainGrows(records: seq<Opcode>, frames: seq<Option<WasmFrame>>, at: nat, outer: seq<nat>, f: WasmFrame)
    requires outer != [] && StandsOnChain(records, frames, outer, f.depth - 1)
    requires at < |frames| && at < |records| && frames[at] == Some(f)
    requires outer[0] < at && records[outer[0]].IsCall() && f.caller == frames[outer[0]]
    ensures StandsOnChain(records, frames, [at] + outer, f.depth)
  {
    var all := [at] + outer;
    assert forall k {:trigger all[k]} :: 0 < k < |all| ==> all[k] == outer[k - 1];
    assert forall k {:trigger all[k]} :: 1 < k < |all| ==> all[k - 1] == outer[k - 2];
  }

  lemma {:induction false} StandingIsTheChain(
    records: seq<Opcode>, frames: seq<Option<WasmFrame>>, f: WasmFrame, at: nat)
    requires Sound(records, frames, f, at) && at < |frames| == |records| && frames[at] == Some(f)
    ensures |Standing(f, at)| == f.depth + 1
    ensures StandsOnChain(records, frames, Standing(f, at), f.depth)
  {
    hide StandsOnChain;
    if f.caller.None? {
      StandsAlone(records, frames, f, at);
      assert Standing(f, at) == [at];
    } else {
      var outer := Standing(f.caller.value, f.callSite.value);
      StandingIsTheChain(records, frames, f.caller.value, f.callSite.value);
      assert f.depth == f.caller.value.depth + 1;
      ChainGrows(records, frames, at, outer, f);
      assert Standing(f, at) == [at] + outer;
    }
  }

  lemma StandsAlone(records: seq<Opcode>, frames: seq<Option<WasmFrame>>, f: WasmFrame, at: nat)
    requires at < |frames| && at < |records| && frames[at] == Some(f)
    ensures StandsOnChain(records, frames, [at], f.depth)
  {
  }

  /**
   * The view of any trace at any record where a frame is established: exactly depth + 1
   * activations, each standing at a record where it was itself the executing frame (an outer one at
   * its call instruction), levels counting up from the innermost.
   */
  lemma CallStackShape(
    records: seq<Opcode>, positions: Positions, functionRanges: Option<seq<FunctionRange>>,
    frames: seq<Option<WasmFrame>>, mapping: Mapping, code: seq<CallFrame>, index: nat)
    requires |frames| == |records| && index < |records| && frames[index].Some?
    requires forall k :: 0 <= k < |records| ==> frames[k] == FrameAt(records, positions, functionRanges, k)
    requires IsExpansion(mapping, StandingAt(frames[index], index), 0, code)
    ensures CountActivations(code) == frames[index].value.depth + 1
    ensures forall k :: 0 <= k < |code| ==> code[k].Code? && code[k].level == k
    ensures |StandingAt(frames[index], index)| == frames[index].value.depth + 1
    ensures StandsOnChain(records, frames, StandingAt(frames[index], index), frames[index].value.depth)
  {
    hide StandsOnChain, IsExpansion, Sound;
    EveryFrameIsSound(records, positions, functionRanges, frames, index);
    StandingIsTheChain(records, frames, frames[index].value, index);
    ExpansionCounts(mapping, StandingAt(frames[index], index), 0, code);
  }
}
