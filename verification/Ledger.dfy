/** The ledger at a replay cursor (src/debugAdapter/LedgerImage.ts). */
module Ledger {
  // A versioned index built by one load-time scan with nested rollback, and the stack-free reference it must
  // agree with.

  import opened Prelude
  import opened ScValKeys

  datatype StorageEntry = StorageEntry(
    id: string, contract: string, durability: Durability, key: ScVal, value: ScVal, liveUntil: int)

  datatype ContractMeta = ContractMeta(wasmHash: string, liveUntil: int)

  datatype LedgerInfo = LedgerInfo(sequence: int, timestamp: int)

  datatype HostObject = HostObject(index: int, value: ScVal)

  /** The part of the ledger a failed call rolls back. */
  datatype World = World(
    storage: map<string, StorageEntry>,
    accounts: map<string, int>,
    contracts: map<string, ContractMeta>,
    codes: map<string, int>,
    info: Option<LedgerInfo>
  )

  /** A storage entry as a baseline states it. */
  datatype Baseline = Baseline(durability: Durability, key: ScVal, value: ScVal, liveUntil: int)

  datatype AccountBaseline = AccountBaseline(account: string, balance: int)

  datatype CodeBaseline = CodeBaseline(hash: string, liveUntil: int)

  datatype ContractBaseline = ContractBaseline(
    contract: string, wasmHash: string, liveUntil: int, storage: seq<Baseline>)

  datatype CallInfo = CallInfo(caller: string, callee: string, name: string, args: seq<ScVal>, depth: int)

  /** The typed payload of an event record. */
  datatype Event =
    | Snapshot(
        info: LedgerInfo, accounts: seq<AccountBaseline>, contracts: seq<ContractBaseline>, codes: seq<CodeBaseline>)
    | CallContract(call: CallInfo, storage: seq<Baseline>)
    | EndWasm(success: bool)
    | DataPut(contract: string, durability: Durability, key: ScVal, written: Option<ScVal>)
    | DataDel(contract: string, durability: Durability, key: ScVal)
    | DataTtl(contract: string, durability: Durability, key: ScVal, liveUntil: int)
    | InstanceTtl(contract: string, liveUntil: int)
    | CodeTtl(hash: string, liveUntil: int)
    | DeployContract(contract: string, wasmHash: string, liveUntil: int)
    | ContractCode(contract: string, wasmHash: string)
    | Account(account: string, balance: int)
    | SetInfo(info: LedgerInfo)
    | AddObject(added: HostObject)

  /** A trace, record by record: its event, if the record carries one. */
  type Records = seq<Option<Event>>

  datatype CallFrame = CallFrame(call: CallInfo, index: nat)

  /** Everything the image reports at a cursor. */
  datatype Version = Version(world: World, hostObjects: seq<HostObject>, callStack: seq<CallFrame>)

  const EMPTY_WORLD := World(map[], map[], map[], map[], None)

  const EMPTY_VERSION := Version(EMPTY_WORLD, [], [])

  // ----- What one event does to the world -----

  /** What a baseline says of its entry. */
  function BaselineEntry(contract: string, b: Baseline): StorageEntry {
    StorageEntry(StorageId(contract, b.durability, b.key), contract, b.durability, b.key, b.value, b.liveUntil)
  }

  function Seeded(storage: map<string, StorageEntry>, contract: string, b: Baseline): map<string, StorageEntry> {
    var entry := BaselineEntry(contract, b);
    storage[entry.id := entry]
  }

  function SeededAll(storage: map<string, StorageEntry>, contract: string, bs: seq<Baseline>):
    map<string, StorageEntry>
  {
    if bs == [] then storage else Seeded(SeededAll(storage, contract, bs[..|bs| - 1]), contract, bs[|bs| - 1])
  }

  function SeededContracts(storage: map<string, StorageEntry>, cs: seq<ContractBaseline>): map<string, StorageEntry> {
    if cs == [] then storage
    else
      var c := cs[|cs| - 1];
      SeededAll(SeededContracts(storage, cs[..|cs| - 1]), c.contract, c.storage)
  }

  function WithAccounts(accounts: map<string, int>, bs: seq<AccountBaseline>): map<string, int> {
    if bs == [] then accounts
    else WithAccounts(accounts, bs[..|bs| - 1])[bs[|bs| - 1].account := bs[|bs| - 1].balance]
  }

  function WithContracts(contracts: map<string, ContractMeta>, cs: seq<ContractBaseline>): map<string, ContractMeta> {
    if cs == [] then contracts
    else
      var c := cs[|cs| - 1];
      WithContracts(contracts, cs[..|cs| - 1])[c.contract := ContractMeta(c.wasmHash, c.liveUntil)]
  }

  function WithCodes(codes: map<string, int>, bs: seq<CodeBaseline>): map<string, int> {
    if bs == [] then codes
    else WithCodes(codes, bs[..|bs| - 1])[bs[|bs| - 1].hash := bs[|bs| - 1].liveUntil]
  }

  /** The world once a snapshot event states what already is; other events state nothing. */
  function Stated(w: World, e: Event): World {
    match e
    case Snapshot(info, accounts, contracts, codes) =>
      World(
        SeededContracts(w.storage, contracts), WithAccounts(w.accounts, accounts),
        WithContracts(w.contracts, contracts), WithCodes(w.codes, codes), Some(info))
    case CallContract(call, storage) => w.(storage := SeededAll(w.storage, call.callee, storage))
    case _ => w
  }

  /** The world once a mutation has executed, rollback apart. */
  function Mutated(w: World, e: Event): World {
    match e
    case DataPut(contract, durability, key, Some(value)) =>
      var id := StorageId(contract, durability, key);
      var liveUntil := if id in w.storage then w.storage[id].liveUntil else 0;
      w.(storage := w.storage[id := StorageEntry(id, contract, durability, key, value, liveUntil)])
    case DataDel(contract, durability, key) =>
      w.(storage := w.storage - {StorageId(contract, durability, key)})
    case DataTtl(contract, durability, key, liveUntil) =>
      var id := StorageId(contract, durability, key);
      if id in w.storage then w.(storage := w.storage[id := w.storage[id].(liveUntil := liveUntil)]) else w
    case InstanceTtl(contract, liveUntil) =>
      if contract in w.contracts
      then w.(contracts := w.contracts[contract := w.contracts[contract].(liveUntil := liveUntil)])
      else w
    case CodeTtl(hash, liveUntil) =>
      if hash in w.codes then w.(codes := w.codes[hash := liveUntil]) else w
    case DeployContract(contract, wasmHash, liveUntil) =>
      w.(contracts := w.contracts[contract := ContractMeta(wasmHash, liveUntil)])
    case ContractCode(contract, wasmHash) =>
      var liveUntil := if contract in w.contracts then w.contracts[contract].liveUntil else 0;
      w.(contracts := w.contracts[contract := ContractMeta(wasmHash, liveUntil)])
    case Account(account, balance) => w.(accounts := w.accounts[account := balance])
    case SetInfo(info) => w.(info := Some(info))
    case _ => w
  }

  // ----- The stack-free reference -----

  predicate OpensCall(record: Option<Event>) { record.Some? && record.value.CallContract? }

  predicate ClosesCall(record: Option<Event>) { record.Some? && record.value.EndWasm? }

  /**
   * The call record that the `nested + 1`-th unmatched `endWasm` after record `n - 1` closes, found by
   * walking back over the records and counting.
   */
  function MatchingCall(records: Records, n: nat, nested: nat): (c: Option<nat>)
    requires n <= |records|
    ensures c.Some? ==> c.value < n && OpensCall(records[c.value])
  {
    if n == 0 then None
    else if OpensCall(records[n - 1]) then
      if nested == 0 then Some(n - 1) else MatchingCall(records, n - 1, nested - 1)
    else if ClosesCall(records[n - 1]) then MatchingCall(records, n - 1, nested + 1)
    else MatchingCall(records, n - 1, nested)
  }

  /** The ledger once the first `n` records have taken effect; a failed call leaves what its call record showed. */
  function WorldAfter(records: Records, n: nat): World
    requires n <= |records|
    decreases n, 0
  {
    if n == 0 then EMPTY_WORLD
    else
      match records[n - 1]
      case None => WorldAfter(records, n - 1)
      case Some(EndWasm(success)) =>
        var call := MatchingCall(records, n - 1, 0);
        if !success && call.Some? then WorldShown(records, call.value) else WorldAfter(records, n - 1)
      case Some(e) => Mutated(WorldShown(records, n - 1), e)
  }

  /** The ledger while the cursor rests on record `i`: everything before it, and what the record itself states. */
  function WorldShown(records: Records, i: nat): World
    requires i < |records|
    decreases i, 1
  {
    var w := WorldAfter(records, i);
    if records[i].Some? then Stated(w, records[i].value) else w
  }

  /** The host objects of the first `n` records: never rolled back. */
  function ObjectsAfter(records: Records, n: nat): seq<HostObject>
    requires n <= |records|
  {
    if n == 0 then []
    else ObjectsAfter(records, n - 1)
         + (if records[n - 1].Some? && records[n - 1].value.AddObject? then [records[n - 1].value.added] else [])
  }

  /** The calls still open after the first `n` records, outermost first: those no later `endWasm` closes. */
  function OpenCalls(records: Records, n: nat): (open: seq<nat>)
    requires n <= |records|
    ensures forall k :: 0 <= k < |open| ==> open[k] < n && OpensCall(records[open[k]])
  {
    if n == 0 then []
    else
      var open := OpenCalls(records, n - 1);
      if OpensCall(records[n - 1]) then open + [n - 1]
      else if ClosesCall(records[n - 1]) then if open == [] then [] else open[..|open| - 1]
      else open
  }

  /** The `nested`-th open call from the innermost, if there are that many. */
  function FromInnermost(open: seq<nat>, nested: nat): Option<nat> {
    if nested < |open| then Some(open[|open| - 1 - nested]) else None
  }

  lemma FromInnermostShifts(open: seq<nat>, c: nat, nested: nat)
    ensures FromInnermost(open + [c], nested) == if nested == 0 then Some(c) else FromInnermost(open, nested - 1)
    ensures open != [] ==> FromInnermost(open[..|open| - 1], nested) == FromInnermost(open, nested + 1)
  {
  }

  lemma MatchingCallUnfolds(records: Records, n: nat, nested: nat)
    requires 0 < n <= |records|
    ensures MatchingCall(records, n, nested) ==
            if OpensCall(records[n - 1]) then
              if nested == 0 then Some(n - 1) else MatchingCall(records, n - 1, nested - 1)
            else if ClosesCall(records[n - 1]) then MatchingCall(records, n - 1, nested + 1)
            else MatchingCall(records, n - 1, nested)
  {
  }

  lemma OpenCallsUnfolds(records: Records, n: nat)
    requires 0 < n <= |records|
    ensures OpenCalls(records, n) ==
            var open := OpenCalls(records, n - 1);
            if OpensCall(records[n - 1]) then open + [n - 1]
            else if ClosesCall(records[n - 1]) then if open == [] then [] else open[..|open| - 1]
            else open
  {
  }

  /** Walking back and counting finds the innermost open calls. */
  lemma {:induction false} MatchingCallIsOpen(records: Records, n: nat, nested: nat)
    requires n <= |records|
    ensures MatchingCall(records, n, nested) == FromInnermost(OpenCalls(records, n), nested)
  {
    hide FromInnermost, OpensCall, ClosesCall, MatchingCall, OpenCalls;
    if n == 0 {
      NothingOpen(records);
      NoneOpen(nested);
    } else {
      MatchingCallUnfolds(records, n, nested);
      OpenCallsUnfolds(records, n);
      FromInnermostShifts(OpenCalls(records, n - 1), n - 1, nested);
      NoneOpen(nested);
      if OpensCall(records[n - 1]) {
        if nested > 0 {
          MatchingCallIsOpen(records, n - 1, nested - 1);
        }
      } else if ClosesCall(records[n - 1]) {
        MatchingCallIsOpen(records, n - 1, nested + 1);
      } else {
        MatchingCallIsOpen(records, n - 1, nested);
      }
    }
  }

  lemma NothingOpen(records: Records)
    ensures OpenCalls(records, 0) == [] && forall nested :: MatchingCall(records, 0, nested) == None
  {
  }

  lemma NoneOpen(nested: nat)
    ensures FromInnermost([], nested) == None && FromInnermost([], nested + 1) == None
  {
  }

  function CallOf(record: Option<Event>): CallInfo
    requires OpensCall(record)
  {
    record.value.call
  }

  function FramesOf(records: Records, open: seq<nat>): (frames: seq<CallFrame>)
    requires forall k :: 0 <= k < |open| ==>
               open[k] < |records| && OpensCall(records[open[k]])
    ensures |frames| == |open|
    ensures forall k :: 0 <= k < |open| ==> frames[k] == CallFrame(CallOf(records[open[k]]), open[k])
  {
    if open == [] then []
    else FramesOf(records, open[..|open| - 1]) + [CallFrame(CallOf(records[open[|open| - 1]]), open[|open| - 1])]
  }

  /** What must be shown at record `i`. A `callContract` opens its frame at its own record. */
  function Reference(records: Records, i: nat): Version
    requires i < |records|
  {
    var open := if OpensCall(records[i]) then OpenCalls(records, i + 1) else OpenCalls(records, i);
    Version(WorldShown(records, i), ObjectsAfter(records, i), FramesOf(records, open))
  }

  // ----- The scan's steps -----

  /** The scan between records: the version in effect and the worlds saved at open calls. */
  datatype Progress = Progress(version: Version, saved: seq<World>)

  function SnapshotStep(p: Progress, e: Event, index: nat): Progress {
    match e
    case Snapshot(_, _, _, _) => p.(version := p.version.(world := Stated(p.version.world, e)))
    case CallContract(call, _) =>
      var world := Stated(p.version.world, e);
      Progress(
        p.version.(world := world, callStack := p.version.callStack + [CallFrame(call, index)]),
        p.saved + [world])
    case _ => p
  }

  function MutationStep(p: Progress, e: Event): Progress {
    match e
    case EndWasm(success) =>
      var restore := if p.saved == [] then None else Some(p.saved[|p.saved| - 1]);
      var saved := if p.saved == [] then [] else p.saved[..|p.saved| - 1];
      if p.version.callStack == [] then p.(saved := saved)
      else
        Progress(
          p.version.(
            world := if !success && restore.Some? then restore.value else p.version.world,
            callStack := p.version.callStack[..|p.version.callStack| - 1]),
          saved)
    case AddObject(o) => p.(version := p.version.(hostObjects := p.version.hostObjects + [o]))
    case _ => p.(version := p.version.(world := Mutated(p.version.world, e)))
  }

  function ProgressAfter(records: Records, n: nat): Progress
    requires n <= |records|
  {
    if n == 0 then Progress(EMPTY_VERSION, [])
    else
      var p := ProgressAfter(records, n - 1);
      match records[n - 1]
      case None => p
      case Some(e) => MutationStep(SnapshotStep(p, e, n - 1), e)
  }

  function Shown(records: Records, i: nat): Version
    requires i < |records|
  {
    var p := ProgressAfter(records, i);
    if records[i].Some? then SnapshotStep(p, records[i].value, i).version else p.version
  }

  // ----- Agreement with the reference -----

  /**
   * The scan's invariant: one saved world per open call, each being the world shown standing on that
   * call's own record; and everything else as the reference has it.
   */
  ghost predicate Faithful(records: Records, n: nat, p: Progress)
    requires n <= |records|
  {
    p.version == VersionAfter(records, n) && SavedAreShown(records, OpenCalls(records, n), p.saved)
  }

  /** The reference between records: what the first `n` of them leave. */
  function VersionAfter(records: Records, n: nat): Version
    requires n <= |records|
  {
    Version(WorldAfter(records, n), ObjectsAfter(records, n), FramesOf(records, OpenCalls(records, n)))
  }

  /** One saved world per open call: the world shown standing on that call's own record. */
  ghost predicate SavedAreShown(records: Records, open: seq<nat>, saved: seq<World>) {
    && |saved| == |open|
    && forall k :: 0 <= k < |open| ==> open[k] < |records| && saved[k] == WorldShown(records, open[k])
  }

  lemma FaithfulShows(records: Records, n: nat, p: Progress)
    requires n < |records| && Faithful(records, n, p)
    ensures (if records[n].Some? then SnapshotStep(p, records[n].value, n).version else p.version) ==
            Reference(records, n)
  {
    if OpensCall(records[n]) {
      var open := OpenCalls(records, n);
      assert OpenCalls(records, n + 1) == open + [n];
      assert (open + [n])[..|open|] == open;
    }
  }

  lemma WorldAfterEvent(records: Records, n: nat, e: Event)
    requires n < |records| && records[n] == Some(e) && !e.EndWasm?
    ensures WorldAfter(records, n + 1) == Mutated(Stated(WorldAfter(records, n), e), e)
    ensures WorldShown(records, n) == Stated(WorldAfter(records, n), e)
  {
  }

  lemma FramesOfAppend(records: Records, open: seq<nat>, c: nat)
    requires forall k :: 0 <= k < |open| ==> open[k] < |records| && OpensCall(records[open[k]])
    requires c < |records| && OpensCall(records[c])
    ensures forall k :: 0 <= k < |open + [c]| ==> (open + [c])[k] < |records| && OpensCall(records[(open + [c])[k]])
    ensures FramesOf(records, open + [c]) == FramesOf(records, open) + [CallFrame(CallOf(records[c]), c)]
  {
    assert (open + [c])[..|open|] == open;
  }

  lemma SavedAppend(records: Records, open: seq<nat>, saved: seq<World>, c: nat)
    requires SavedAreShown(records, open, saved) && c < |records|
    ensures SavedAreShown(records, open + [c], saved + [WorldShown(records, c)])
  {
  }

  lemma CallStep(p: Progress, e: Event, n: nat)
    requires e.CallContract?
    ensures var world := Stated(p.version.world, e);
            MutationStep(SnapshotStep(p, e, n), e) ==
            Progress(
              Version(world, p.version.hostObjects, p.version.callStack + [CallFrame(e.call, n)]),
              p.saved + [world])
    ensures forall w: World :: Mutated(w, e) == w
  {
  }

  lemma FaithfulCall(records: Records, n: nat, p: Progress, e: Event)
    requires n < |records| && records[n] == Some(e) && e.CallContract? && Faithful(records, n, p)
    ensures Faithful(records, n + 1, MutationStep(SnapshotStep(p, e, n), e))
  {
    var open := OpenCalls(records, n);
    WorldAfterEvent(records, n, e);
    ObjectsAfterQuiet(records, n);
    OpenCallsUnfolds(records, n + 1);
    CallStep(p, e, n);
    SavedAppend(records, open, p.saved, n);
    FramesOfAppend(records, open, n);
    hide WorldAfter, WorldShown, OpenCalls, ObjectsAfter, FramesOf, SavedAreShown, MutationStep, SnapshotStep, Stated,
      Mutated;
  }

  lemma WorldAfterEnd(records: Records, n: nat, success: bool)
    requires n < |records| && records[n] == Some(EndWasm(success))
    ensures WorldAfter(records, n + 1) ==
            if !success && MatchingCall(records, n, 0).Some?
            then WorldShown(records, MatchingCall(records, n, 0).value) else WorldAfter(records, n)
  {
  }

  lemma ObjectsAfterQuiet(records: Records, n: nat)
    requires n < |records| && (records[n].None? || !records[n].value.AddObject?)
    ensures ObjectsAfter(records, n + 1) == ObjectsAfter(records, n)
  {
  }

  lemma FramesOfPrefix(records: Records, open: seq<nat>)
    requires open != [] && forall k :: 0 <= k < |open| ==> open[k] < |records| && OpensCall(records[open[k]])
    ensures FramesOf(records, open[..|open| - 1]) == FramesOf(records, open)[..|open| - 1]
  {
  }

  lemma SavedPrefix(records: Records, open: seq<nat>, saved: seq<World>)
    requires SavedAreShown(records, open, saved)
    ensures |open| == |saved|
    ensures open != [] ==>
              && SavedAreShown(records, open[..|open| - 1], saved[..|saved| - 1])
              && open[|open| - 1] < |records| && saved[|saved| - 1] == WorldShown(records, open[|open| - 1])
  {
  }

  lemma EndStep(p: Progress, success: bool)
    requires |p.saved| == |p.version.callStack|
    ensures MutationStep(p, EndWasm(success)) ==
            if p.saved == [] then p
            else
              Progress(
                Version(
                  if success then p.version.world else p.saved[|p.saved| - 1],
                  p.version.hostObjects,
                  p.version.callStack[..|p.version.callStack| - 1]),
                p.saved[..|p.saved| - 1])
  {
  }

  lemma FaithfulEnd(records: Records, n: nat, p: Progress, success: bool)
    requires n < |records| && records[n] == Some(EndWasm(success)) && Faithful(records, n, p)
    ensures Faithful(records, n + 1, MutationStep(p, EndWasm(success)))
  {
    MatchingCallIsOpen(records, n, 0);
    WorldAfterEnd(records, n, success);
    ObjectsAfterQuiet(records, n);
    OpenCallsUnfolds(records, n + 1);
    var open := OpenCalls(records, n);
    SavedPrefix(records, open, p.saved);
    EndStep(p, success);
    hide WorldAfter, WorldShown, MatchingCall, OpenCalls, ObjectsAfter, FramesOf, SavedAreShown, MutationStep;
    if open != [] {
      FramesOfPrefix(records, open);
    }
  }

  /** An event that opens or closes no call changes the world, the object table, or neither. */
  lemma OtherStep(p: Progress, e: Event, n: nat)
    requires !e.CallContract? && !e.EndWasm?
    ensures MutationStep(SnapshotStep(p, e, n), e) ==
            p.(version := p.version.(
                 world := Mutated(Stated(p.version.world, e), e),
                 hostObjects := p.version.hostObjects + (if e.AddObject? then [e.added] else [])))
  {
  }

  lemma ObjectsAfterUnfolds(records: Records, n: nat, e: Event)
    requires n < |records| && records[n] == Some(e)
    ensures ObjectsAfter(records, n + 1) == ObjectsAfter(records, n) + (if e.AddObject? then [e.added] else [])
  {
  }

  lemma FaithfulOther(records: Records, n: nat, p: Progress, e: Event)
    requires n < |records| && records[n] == Some(e) && !e.CallContract? && !e.EndWasm? && Faithful(records, n, p)
    ensures Faithful(records, n + 1, MutationStep(SnapshotStep(p, e, n), e))
  {
    WorldAfterEvent(records, n, e);
    ObjectsAfterUnfolds(records, n, e);
    OpenCallsUnfolds(records, n + 1);
    OtherStep(p, e, n);
    hide WorldAfter, WorldShown, OpenCalls, ObjectsAfter, FramesOf, SavedAreShown, MutationStep, SnapshotStep, Stated,
      Mutated;
  }

  lemma EndStatesNothing(p: Progress, e: Event, n: nat)
    requires e.EndWasm?
    ensures SnapshotStep(p, e, n) == p
  {
  }

  lemma FaithfulStep(records: Records, n: nat, p: Progress, e: Event)
    requires n < |records| && records[n] == Some(e) && Faithful(records, n, p)
    ensures Faithful(records, n + 1, MutationStep(SnapshotStep(p, e, n), e))
  {
    hide Faithful, MutationStep, SnapshotStep;
    if e.CallContract? {
      FaithfulCall(records, n, p, e);
    } else if e.EndWasm? {
      EndStatesNothing(p, e, n);
      FaithfulEnd(records, n, p, e.success);
    } else {
      FaithfulOther(records, n, p, e);
    }
  }

  lemma ProgressUnfolds(records: Records, n: nat)
    requires n < |records|
    ensures ProgressAfter(records, n + 1) ==
            if records[n].None? then ProgressAfter(records, n)
            else MutationStep(SnapshotStep(ProgressAfter(records, n), records[n].value, n), records[n].value)
  {
  }

  lemma {:induction false} ScanIsFaithful(records: Records, n: nat)
    requires n <= |records|
    ensures Faithful(records, n, ProgressAfter(records, n))
  {
    hide Faithful, ProgressAfter, MutationStep, SnapshotStep;
    if n == 0 {
      NothingScanned(records);
    } else {
      ProgressUnfolds(records, n - 1);
      ScanIsFaithful(records, n - 1);
      if records[n - 1].Some? {
        FaithfulStep(records, n - 1, ProgressAfter(records, n - 1), records[n - 1].value);
      } else {
        FaithfulQuiet(records, n - 1, ProgressAfter(records, n - 1));
      }
    }
  }

  lemma NothingScanned(records: Records)
    ensures Faithful(records, 0, ProgressAfter(records, 0))
  {
  }

  lemma FaithfulQuiet(records: Records, n: nat, p: Progress)
    requires n < |records| && records[n].None? && Faithful(records, n, p)
    ensures Faithful(records, n + 1, p)
  {
  }

  /** At every record of every trace the scan shows what the stack-free reference shows. */
  lemma ShownIsReference(records: Records, i: nat)
    requires i < |records|
    ensures Shown(records, i) == Reference(records, i)
  {
    ScanIsFaithful(records, i);
    FaithfulShows(records, i, ProgressAfter(records, i));
  }

  // ----- Rollback, nesting and monotonicity -----

  /** Calls opened minus calls closed over records [from, n). */
  function Excess(records: Records, from: nat, n: nat): int
    requires from <= n <= |records|
  {
    if n == from then 0
    else
      Excess(records, from, n - 1) +
      (if OpensCall(records[n - 1]) then 1 else if ClosesCall(records[n - 1]) then -1 else 0)
  }

  ghost predicate NeverBelow(records: Records, from: nat, n: nat)
    requires from <= n <= |records|
  {
    forall j :: from <= j <= n ==> Excess(records, from, j) >= 0
  }

  /** Record `e` closes the call record `c` opened: between them calls open and close in balance. */
  ghost predicate Closes(records: Records, c: nat, e: nat) {
    && c < e < |records| && OpensCall(records[c]) && ClosesCall(records[e])
    && NeverBelow(records, c + 1, e) && Excess(records, c + 1, e) == 0
  }

  lemma {:induction false} OpenWhileBalanced(records: Records, c: nat, n: nat)
    requires c < n <= |records|
    requires NeverBelow(records, c + 1, n)
    ensures var base, open := OpenCalls(records, c + 1), OpenCalls(records, n);
            |open| == |base| + Excess(records, c + 1, n) && open[..|base|] == base
  {
    if n > c + 1 {
      OpenWhileBalanced(records, c, n - 1);
      OpenCallsUnfolds(records, n);
      assert Excess(records, c + 1, n) >= 0;
    }
  }

  lemma ClosesMatches(records: Records, c: nat, e: nat)
    requires Closes(records, c, e)
    ensures MatchingCall(records, e, 0) == Some(c)
    ensures OpenCalls(records, e + 1) == OpenCalls(records, c)
  {
    OpenWhileBalanced(records, c, e);
    OpenCallsUnfolds(records, c + 1);
    OpenCallsUnfolds(records, e + 1);
    MatchingCallIsOpen(records, e, 0);
    var base, open := OpenCalls(records, c + 1), OpenCalls(records, e);
    assert open == base;
  }

  lemma {:induction false} ObjectsOnlyGrow(records: Records, m: nat, n: nat)
    requires m <= n <= |records|
    ensures ObjectsAfter(records, m) <= ObjectsAfter(records, n)
  {
    if m < n {
      ObjectsOnlyGrow(records, m, n - 1);
    }
  }

  lemma ProgressParts(records: Records, n: nat)
    requires n <= |records|
    ensures ProgressAfter(records, n).version.world == WorldAfter(records, n)
    ensures ProgressAfter(records, n).version.hostObjects == ObjectsAfter(records, n)
  {
    ScanIsFaithful(records, n);
  }

  lemma SameOpenCalls(records: Records, m: nat, n: nat)
    requires m <= |records| && n <= |records| && OpenCalls(records, m) == OpenCalls(records, n)
    ensures ProgressAfter(records, m).version.callStack == ProgressAfter(records, n).version.callStack
  {
    ScanIsFaithful(records, m);
    ScanIsFaithful(records, n);
  }

  lemma ShownParts(records: Records, i: nat)
    requires i < |records|
    ensures Shown(records, i).world == WorldShown(records, i)
    ensures Shown(records, i).hostObjects == ObjectsAfter(records, i)
  {
    ShownIsReference(records, i);
  }

  lemma ClosesBounds(records: Records, c: nat, e: nat)
    requires Closes(records, c, e)
    ensures c < e < |records| && OpensCall(records[c])
  {
  }

  lemma ReferenceCloses(records: Records, c: nat, e: nat, success: bool)
    requires Closes(records, c, e) && records[e] == Some(EndWasm(success))
    ensures WorldAfter(records, e + 1) == if success then WorldAfter(records, e) else WorldShown(records, c)
    ensures OpenCalls(records, e + 1) == OpenCalls(records, c)
    ensures ObjectsAfter(records, c) <= ObjectsAfter(records, e + 1)
  {
    hide WorldAfter, WorldShown, ObjectsAfter, OpenCalls, MatchingCall;
    ClosesMatches(records, c, e);
    WorldAfterEnd(records, e, success);
    ObjectsOnlyGrow(records, c, e + 1);
  }

  /**
   * Whatever happened inside it, nested calls and their own failures included, a failed call leaves
   * exactly the world shown standing on its `callContract` record, the calls open before it, and
   * every host object allocated meanwhile.
   */
  lemma FailedCallRollsBack(records: Records, c: nat, e: nat)
    requires Closes(records, c, e) && records[e] == Some(EndWasm(false))
    ensures var p := ProgressAfter(records, e + 1);
            && p.version.world == Shown(records, c).world
            && p.version.callStack == ProgressAfter(records, c).version.callStack
            && Shown(records, c).hostObjects <= p.version.hostObjects
  {
    hide Closes, WorldAfter, WorldShown, ObjectsAfter, OpenCalls, ProgressAfter, Shown;
    ClosesBounds(records, c, e);
    ReferenceCloses(records, c, e, false);
    ProgressParts(records, e + 1);
    SameOpenCalls(records, e + 1, c);
    ShownParts(records, c);
  }

  /** The last baseline that states the entry `id`. */
  function LastStating(contract: string, bs: seq<Baseline>, id: string): Option<Baseline> {
    if bs == [] then None
    else if BaselineEntry(contract, bs[|bs| - 1]).id == id then Some(bs[|bs| - 1])
    else LastStating(contract, bs[..|bs| - 1], id)
  }

  predicate StatesId(contract: string, b: Baseline, id: string) {
    BaselineEntry(contract, b).id == id
  }

  /** `LastStating` is the last one: none when no baseline states the entry. */
  lemma {:induction false} LastStatingIsLast(contract: string, bs: seq<Baseline>, id: string, k: nat)
    requires k < |bs| && StatesId(contract, bs[k], id) && forall j :: k < j < |bs| ==> !StatesId(contract, bs[j], id)
    ensures LastStating(contract, bs, id) == Some(bs[k])
  {
    if k < |bs| - 1 {
      LastStatingIsLast(contract, bs[..|bs| - 1], id, k);
    }
  }

  /** Every entry the baselines state is stored already, and as the last of them to state it says. */
  ghost predicate AlreadyStored(storage: map<string, StorageEntry>, contract: string, bs: seq<Baseline>) {
    forall id :: LastStating(contract, bs, id).Some? ==>
      id in storage && storage[id] == BaselineEntry(contract, LastStating(contract, bs, id).value)
  }

  lemma {:induction false} SeededAllStores(
    storage: map<string, StorageEntry>, contract: string, bs: seq<Baseline>, id: string)
    ensures id in SeededAll(storage, contract, bs) <==> id in storage || LastStating(contract, bs, id).Some?
    ensures id in SeededAll(storage, contract, bs) ==>
              SeededAll(storage, contract, bs)[id] ==
              if LastStating(contract, bs, id).Some? then BaselineEntry(contract, LastStating(contract, bs, id).value)
              else storage[id]
  {
    if bs != [] {
      SeededAllStores(storage, contract, bs[..|bs| - 1], id);
    }
  }

  lemma SeedingChangesNothingIff(storage: map<string, StorageEntry>, contract: string, bs: seq<Baseline>)
    ensures SeededAll(storage, contract, bs) == storage <==> AlreadyStored(storage, contract, bs)
  {
    hide LastStating;
    forall id ensures id in SeededAll(storage, contract, bs) <==> id in storage || LastStating(contract, bs, id).Some?
              ensures id in SeededAll(storage, contract, bs) ==>
                        SeededAll(storage, contract, bs)[id] ==
                        if LastStating(contract, bs, id).Some?
                        then BaselineEntry(contract, LastStating(contract, bs, id).value) else storage[id]
    {
      SeededAllStores(storage, contract, bs, id);
    }
  }

  lemma WorldShownAtCall(records: Records, c: nat)
    requires c < |records| && OpensCall(records[c])
    ensures var w, e := WorldAfter(records, c), records[c].value;
            WorldShown(records, c) == w.(storage := SeededAll(w.storage, e.call.callee, e.storage))
  {
  }

  /**
   * A failed call leaves the ledger as it was immediately before its `callContract` exactly when the
   * baseline on that record told nothing new: every entry it states was stored, and stored so.
   */
  lemma FailedCallUndoneIff(records: Records, c: nat, e: nat)
    requires Closes(records, c, e) && records[e] == Some(EndWasm(false))
    ensures ProgressAfter(records, e + 1).version.world == ProgressAfter(records, c).version.world <==>
            AlreadyStored(
              ProgressAfter(records, c).version.world.storage, CallOf(records[c]).callee, records[c].value.storage)
  {
    assert c < e < |records| && OpensCall(records[c]);
    hide Closes, WorldAfter, WorldShown, ProgressAfter, Shown, AlreadyStored, SeededAll;
    FailedCallRollsBack(records, c, e);
    ShownParts(records, c);
    ProgressParts(records, c);
    WorldShownAtCall(records, c);
    var w := WorldAfter(records, c);
    SeedingChangesNothingIff(w.storage, CallOf(records[c]).callee, records[c].value.storage);
  }

  /** A failed call whose baseline tells something new: it leaves an entry that was not there before the call. */
  lemma FailedCallLeavesBaseline(call: CallInfo)
    ensures var records := [Some(CallContract(call, [Baseline(Instance, Void, Void, 5)])), Some(EndWasm(false))];
            && Closes(records, 0, 1)
            && ProgressAfter(records, 0).version.world.storage == map[]
            && StorageId(call.callee, Instance, Void) in ProgressAfter(records, 2).version.world.storage
  {
    var b := Baseline(Instance, Void, Void, 5);
    var records := [Some(CallContract(call, [b])), Some(EndWasm(false))];
    assert forall j :: 1 <= j <= 1 ==> Excess(records, 1, j) == 0;
    FailedCallRollsBack(records, 0, 1);
    ShownParts(records, 0);
    WorldShownAtCall(records, 0);
    SeededAllStores(map[], call.callee, [b], StorageId(call.callee, Instance, Void));
  }

  /** A successful call keeps every change made since it opened. */
  lemma SuccessfulCallKeeps(records: Records, c: nat, e: nat)
    requires Closes(records, c, e) && records[e] == Some(EndWasm(true))
    ensures ProgressAfter(records, e + 1).version.world == ProgressAfter(records, e).version.world
    ensures ProgressAfter(records, e + 1).version.callStack == ProgressAfter(records, c).version.callStack
  {
    hide Closes, WorldAfter, ObjectsAfter, OpenCalls, ProgressAfter;
    ClosesBounds(records, c, e);
    ReferenceCloses(records, c, e, true);
    ProgressParts(records, e);
    ProgressParts(records, e + 1);
    SameOpenCalls(records, e + 1, c);
  }

  /** An `endWasm` with nothing open changes nothing: a trace may be a prefix. */
  lemma UnmatchedEndIgnored(records: Records, e: nat)
    requires e < |records| && ClosesCall(records[e]) && OpenCalls(records, e) == []
    ensures ProgressAfter(records, e + 1) == ProgressAfter(records, e)
  {
    ScanIsFaithful(records, e);
    ProgressUnfolds(records, e);
  }

  /** A data event touches no entry but the one its own contract, durability and key name. */
  lemma DataEventsAreLocal(w: World, e: Event, id: string)
    requires e.DataPut? || e.DataDel? || e.DataTtl?
    requires id != StorageId(e.contract, e.durability, e.key)
    ensures id in Mutated(w, e).storage <==> id in w.storage
    ensures id in w.storage ==> Mutated(w, e).storage[id] == w.storage[id]
    ensures Mutated(w, e).accounts == w.accounts && Mutated(w, e).contracts == w.contracts
    ensures Mutated(w, e).codes == w.codes && Mutated(w, e).info == w.info
  {
  }

  // ----- What events leave, entry by entry -----

  /**
   * `after` is `before` with the last statement of each key, and everything unstated as it was: `key` and
   * `value` say what a statement is about and what it states.
   */
  ghost predicate Holds<T(!new), V>(
    before: map<string, V>, after: map<string, V>, statements: seq<T>, key: T -> string, value: T -> V)
  {
    && (forall k :: IsLastOf(statements, key, k) ==>
          key(statements[k]) in after && after[key(statements[k])] == value(statements[k]))
    && (forall id: string :: Unstated(statements, key, id) ==>
          (id in after <==> id in before) && (id in before ==> after[id] == before[id]))
  }

  ghost predicate IsLastOf<T(!new)>(statements: seq<T>, key: T -> string, k: int) {
    0 <= k < |statements| && forall j :: k < j < |statements| ==> key(statements[j]) != key(statements[k])
  }

  ghost predicate Unstated<T(!new)>(statements: seq<T>, key: T -> string, id: string) {
    forall k :: 0 <= k < |statements| ==> key(statements[k]) != id
  }

  ghost function Put<T, V>(m: map<string, V>, statements: seq<T>, key: T -> string, value: T -> V): map<string, V> {
    if statements == [] then m
    else
      var s := statements[|statements| - 1];
      Put(m, statements[..|statements| - 1], key, value)[key(s) := value(s)]
  }

  lemma {:induction false} PutHolds<T(!new), V>(
    m: map<string, V>, statements: seq<T>, key: T -> string, value: T -> V)
    ensures Holds(m, Put(m, statements, key, value), statements, key, value)
    decreases |statements|
  {
    if statements != [] {
      var front := statements[..|statements| - 1];
      PutHolds(m, front, key, value);
      forall k | IsLastOf(statements, key, k)
        ensures key(statements[k]) in Put(m, statements, key, value)
        ensures Put(m, statements, key, value)[key(statements[k])] == value(statements[k])
      {
        assert k < |front| ==> IsLastOf(front, key, k) && key(statements[|front|]) != key(statements[k]);
      }
      forall id: string | Unstated(statements, key, id)
        ensures Unstated(front, key, id) && key(statements[|front|]) != id
      {
      }
    }
  }

  lemma {:induction false} PutAppends<T, V>(
    m: map<string, V>, a: seq<T>, b: seq<T>, key: T -> string, value: T -> V)
    ensures Put(m, a + b, key, value) == Put(Put(m, a, key, value), b, key, value)
    decreases |b|
  {
    if b == [] {
      assert a + b == a;
    } else {
      assert (a + b)[..|a + b| - 1] == a + b[..|b| - 1];
      PutAppends(m, a, b[..|b| - 1], key, value);
    }
  }

  /** A storage entry some contract's baseline states. */
  datatype Statement = Statement(contract: string, b: Baseline)

  function IdStated(s: Statement): string {
    StorageId(s.contract, s.b.durability, s.b.key)
  }

  function EntryStated(s: Statement): StorageEntry {
    StorageEntry(IdStated(s), s.contract, s.b.durability, s.b.key, s.b.value, s.b.liveUntil)
  }

  /** One contract's statements, in order. */
  function StatementsOf(contract: string, bs: seq<Baseline>): (r: seq<Statement>)
    ensures |r| == |bs| && forall k :: 0 <= k < |bs| ==> r[k] == Statement(contract, bs[k])
  {
    seq(|bs|, k requires 0 <= k < |bs| => Statement(contract, bs[k]))
  }

  /** All contracts' statements, in order. */
  function AllStatements(cs: seq<ContractBaseline>): seq<Statement> {
    if cs == [] then [] else StatementsOf(cs[0].contract, cs[0].storage) + AllStatements(cs[1..])
  }

  lemma {:induction false} AllStatementsSnoc(cs: seq<ContractBaseline>, c: ContractBaseline)
    ensures AllStatements(cs + [c]) == AllStatements(cs) + StatementsOf(c.contract, c.storage)
    decreases |cs|
  {
    if cs == [] {
      assert cs + [c] == [c] && [c][1..] == [];
    } else {
      assert (cs + [c])[1..] == cs[1..] + [c];
      AllStatementsSnoc(cs[1..], c);
    }
  }

  lemma {:induction false} SeededIsPut(storage: map<string, StorageEntry>, contract: string, bs: seq<Baseline>)
    ensures SeededAll(storage, contract, bs) == Put(storage, StatementsOf(contract, bs), IdStated, EntryStated)
    decreases |bs|
  {
    if bs != [] {
      SeededIsPut(storage, contract, bs[..|bs| - 1]);
      assert StatementsOf(contract, bs)[..|bs| - 1] == StatementsOf(contract, bs[..|bs| - 1]);
    }
  }

  lemma {:induction false} SeededContractsArePut(storage: map<string, StorageEntry>, cs: seq<ContractBaseline>)
    ensures SeededContracts(storage, cs) == Put(storage, AllStatements(cs), IdStated, EntryStated)
    decreases |cs|
  {
    if cs != [] {
      var front, c := cs[..|cs| - 1], cs[|cs| - 1];
      assert cs == front + [c];
      SeededContractsArePut(storage, front);
      AllStatementsSnoc(front, c);
      SeededIsPut(SeededContracts(storage, front), c.contract, c.storage);
      PutAppends(storage, AllStatements(front), StatementsOf(c.contract, c.storage), IdStated, EntryStated);
    }
  }

  function AccountStated(b: AccountBaseline): string { b.account }

  function BalanceStated(b: AccountBaseline): int { b.balance }

  function ContractStated(c: ContractBaseline): string { c.contract }

  function MetaStated(c: ContractBaseline): ContractMeta { ContractMeta(c.wasmHash, c.liveUntil) }

  function HashStated(b: CodeBaseline): string { b.hash }

  function LiveStated(b: CodeBaseline): int { b.liveUntil }

  lemma {:induction false} AccountsArePut(m: map<string, int>, bs: seq<AccountBaseline>)
    ensures WithAccounts(m, bs) == Put(m, bs, AccountStated, BalanceStated)
    decreases |bs|
  {
    if bs != [] {
      AccountsArePut(m, bs[..|bs| - 1]);
    }
  }

  lemma {:induction false} ContractsArePut(m: map<string, ContractMeta>, cs: seq<ContractBaseline>)
    ensures WithContracts(m, cs) == Put(m, cs, ContractStated, MetaStated)
    decreases |cs|
  {
    if cs != [] {
      ContractsArePut(m, cs[..|cs| - 1]);
    }
  }

  lemma {:induction false} CodesArePut(m: map<string, int>, bs: seq<CodeBaseline>)
    ensures WithCodes(m, bs) == Put(m, bs, HashStated, LiveStated)
    decreases |bs|
  {
    if bs != [] {
      CodesArePut(m, bs[..|bs| - 1]);
    }
  }

  /**
   * What a ledger snapshot leaves: each storage entry, account, contract and code as last stated, whichever
   * contract's baseline that was, the rest as it was, and the stated ledger info.
   */
  lemma SnapshotLeaves(w: World, e: Event)
    requires e.Snapshot?
    ensures Holds(w.storage, Stated(w, e).storage, AllStatements(e.contracts), IdStated, EntryStated)
    ensures Holds(w.accounts, Stated(w, e).accounts, e.accounts, AccountStated, BalanceStated)
    ensures Holds(w.contracts, Stated(w, e).contracts, e.contracts, ContractStated, MetaStated)
    ensures Holds(w.codes, Stated(w, e).codes, e.codes, HashStated, LiveStated)
    ensures Stated(w, e).info == Some(e.info)
  {
    hide Holds, Put, SeededContracts, WithAccounts, WithContracts, WithCodes;
    SeededContractsArePut(w.storage, e.contracts);
    AccountsArePut(w.accounts, e.accounts);
    ContractsArePut(w.contracts, e.contracts);
    CodesArePut(w.codes, e.codes);
    PutHolds(w.storage, AllStatements(e.contracts), IdStated, EntryStated);
    PutHolds(w.accounts, e.accounts, AccountStated, BalanceStated);
    PutHolds(w.contracts, e.contracts, ContractStated, MetaStated);
    PutHolds(w.codes, e.codes, HashStated, LiveStated);
  }

  /** What a call's baseline leaves, and that no other event states anything. */
  lemma CallLeaves(w: World, e: Event)
    requires !e.Snapshot?
    ensures e.CallContract? ==>
              Holds(w.storage, Stated(w, e).storage, StatementsOf(e.call.callee, e.storage), IdStated, EntryStated)
    ensures Stated(w, e).(storage := w.storage) == w
    ensures !e.CallContract? ==> Stated(w, e) == w
  {
    if e.CallContract? {
      SeededIsPut(w.storage, e.call.callee, e.storage);
      PutHolds(w.storage, StatementsOf(e.call.callee, e.storage), IdStated, EntryStated);
    }
  }

  /** `after` is `before` but for the key `id`. */
  ghost predicate ElsewhereSame<V(!new)>(before: map<string, V>, after: map<string, V>, id: string) {
    forall other: string :: other != id ==>
      (other in after <==> other in before) && (other in before ==> after[other] == before[other])
  }

  /** What a data event leaves at its own entry: a put keeps nothing but a TTL known before, 0 if none was. */
  lemma DataEventLeaves(w: World, e: Event)
    requires e.DataPut? || e.DataDel? || e.DataTtl?
    ensures var id, after := StorageId(e.contract, e.durability, e.key), Mutated(w, e);
            && after.(storage := w.storage) == w && ElsewhereSame(w.storage, after.storage, id)
            && (id in after.storage <==> if e.DataPut? && e.written.Some? then true else !e.DataDel? && id in w.storage)
            && (id in after.storage ==>
                  after.storage[id] ==
                  if e.DataPut? && e.written.Some? then
                    StorageEntry(id, e.contract, e.durability, e.key, e.written.value,
                                 if id in w.storage then w.storage[id].liveUntil else 0)
                  else if e.DataTtl? then w.storage[id].(liveUntil := e.liveUntil)
                  else w.storage[id])
  {
  }

  /** What the events about contracts, codes, accounts and the ledger leave, and that the others leave all as it was. */
  lemma OtherEventLeaves(w: World, e: Event)
    requires !e.DataPut? && !e.DataDel? && !e.DataTtl?
    ensures Mutated(w, e).storage == w.storage
    ensures !e.InstanceTtl? && !e.DeployContract? && !e.ContractCode? ==> Mutated(w, e).contracts == w.contracts
    ensures !e.CodeTtl? ==> Mutated(w, e).codes == w.codes
    ensures !e.Account? ==> Mutated(w, e).accounts == w.accounts
    ensures Mutated(w, e).info == if e.SetInfo? then Some(e.info) else w.info
    ensures e.InstanceTtl? || e.DeployContract? || e.ContractCode? ==>
              && ElsewhereSame(w.contracts, Mutated(w, e).contracts, e.contract)
              && (e.contract in Mutated(w, e).contracts <==> !e.InstanceTtl? || e.contract in w.contracts)
              && (e.contract in Mutated(w, e).contracts ==>
                    Mutated(w, e).contracts[e.contract] ==
                    ContractMeta(
                      if e.InstanceTtl? then w.contracts[e.contract].wasmHash else e.wasmHash,
                      if !e.ContractCode? then e.liveUntil
                      else if e.contract in w.contracts then w.contracts[e.contract].liveUntil else 0))
    ensures e.CodeTtl? ==>
              && ElsewhereSame(w.codes, Mutated(w, e).codes, e.hash)
              && (e.hash in Mutated(w, e).codes <==> e.hash in w.codes)
              && (e.hash in w.codes ==> Mutated(w, e).codes[e.hash] == e.liveUntil)
    ensures e.Account? ==>
              && ElsewhereSame(w.accounts, Mutated(w, e).accounts, e.account)
              && e.account in Mutated(w, e).accounts && Mutated(w, e).accounts[e.account] == e.balance
  {
  }

  // ----- When events show -----

  lemma QuietShows(records: Records, i: nat)
    requires i < |records| && records[i].None?
    ensures Reference(records, i) == VersionAfter(records, i) == VersionAfter(records, i + 1)
  {
  }

  /**
   * Between two records without events: what an event states, and the call it opens, show standing on its own
   * record; what it changes, and the object it adds, only on the next.
   */
  lemma EventShows(records: Records, i: nat, e: Event)
    requires 0 < i < |records| - 1 && records[i] == Some(e) && !e.EndWasm?
    requires records[i - 1].None? && records[i + 1].None?
    ensures Reference(records, i) ==
            Version(Stated(Reference(records, i - 1).world, e), Reference(records, i - 1).hostObjects,
                    Reference(records, i - 1).callStack + if e.CallContract? then [CallFrame(e.call, i)] else [])
    ensures Reference(records, i + 1) ==
            Version(Mutated(Reference(records, i).world, e),
                    Reference(records, i).hostObjects + (if e.AddObject? then [e.added] else []),
                    Reference(records, i).callStack)
  {
    hide Reference, VersionAfter, Stated, Mutated;
    QuietShows(records, i - 1);
    QuietShows(records, i + 1);
    ShownAt(records, i, e);
    LeftAfter(records, i, e);
  }

  lemma ShownAt(records: Records, i: nat, e: Event)
    requires i < |records| && records[i] == Some(e) && !e.EndWasm?
    ensures var before := VersionAfter(records, i);
            Reference(records, i) ==
            Version(Stated(before.world, e), before.hostObjects,
                    before.callStack + if e.CallContract? then [CallFrame(e.call, i)] else [])
  {
    hide WorldAfter, WorldShown, ObjectsAfter, FramesOf, Stated, OpenCalls;
    WorldAfterEvent(records, i, e);
    if e.CallContract? {
      OpenCallsUnfolds(records, i + 1);
      FramesOfAppend(records, OpenCalls(records, i), i);
    }
  }

  lemma LeftAfter(records: Records, i: nat, e: Event)
    requires i < |records| && records[i] == Some(e) && !e.EndWasm?
    ensures var shown := Reference(records, i);
            VersionAfter(records, i + 1) ==
            Version(Mutated(shown.world, e), shown.hostObjects + (if e.AddObject? then [e.added] else []),
                    shown.callStack)
  {
    hide WorldAfter, WorldShown, ObjectsAfter, FramesOf, Stated, Mutated, OpenCalls;
    WorldAfterEvent(records, i, e);
    ObjectsAfterUnfolds(records, i, e);
    OpenCallsUnfolds(records, i + 1);
  }

  // ----- The imperative scan -----

  /** Whether an event publishes a version at its own record. */
  predicate StatesAnything(e: Event) {
    e.Snapshot? || e.CallContract?
  }

  /**
   * Whether an event publishes a version from the next record on: a put always does, even of the
   * value already there; a delete or a TTL only of something known; `endWasm` only with a call open.
   */
  predicate Publishes(v: Version, e: Event) {
    match e
    case Snapshot(_, _, _, _) => false
    case CallContract(_, _) => false
    case DataPut(_, _, _, written) => written.Some?
    case DataDel(contract, durability, key) => StorageId(contract, durability, key) in v.world.storage
    case DataTtl(contract, durability, key, _) => StorageId(contract, durability, key) in v.world.storage
    case InstanceTtl(contract, _) => contract in v.world.contracts
    case CodeTtl(hash, _) => hash in v.world.codes
    case EndWasm(_) => v.callStack != []
    case _ => true
  }

  /** Whatever changes the image publishes a version: an event that publishes none changes nothing. */
  lemma UnpublishedChangesNothing(p: Progress, e: Event)
    requires !Publishes(p.version, e)
    ensures MutationStep(p, e).version == p.version
  {
    if e.DataDel? {
      assert p.version.world.storage - {StorageId(e.contract, e.durability, e.key)} == p.version.world.storage;
    }
  }

  /** What the event says is what the version holds already. */
  predicate Repeats(v: Version, e: Event) {
    match e
    case DataPut(contract, durability, key, Some(value)) =>
      var id := StorageId(contract, durability, key);
      && id in v.world.storage
      && v.world.storage[id] == StorageEntry(id, contract, durability, key, value, v.world.storage[id].liveUntil)
    case DataTtl(contract, durability, key, liveUntil) =>
      var id := StorageId(contract, durability, key);
      id in v.world.storage && v.world.storage[id].liveUntil == liveUntil
    case InstanceTtl(contract, liveUntil) =>
      contract in v.world.contracts && v.world.contracts[contract].liveUntil == liveUntil
    case CodeTtl(hash, liveUntil) => hash in v.world.codes && v.world.codes[hash] == liveUntil
    case DeployContract(contract, wasmHash, liveUntil) =>
      contract in v.world.contracts && v.world.contracts[contract] == ContractMeta(wasmHash, liveUntil)
    case ContractCode(contract, wasmHash) =>
      contract in v.world.contracts && v.world.contracts[contract].wasmHash == wasmHash
    case Account(account, balance) => account in v.world.accounts && v.world.accounts[account] == balance
    case SetInfo(info) => v.world.info == Some(info)
    case _ => false
  }

  lemma SameEntryIff<K, V>(m: map<K, V>, k: K, v: V)
    ensures m[k := v] == m <==> k in m && m[k] == v
  {
    assert m[k := v][k] == v;
  }

  lemma StorageRepeatsIff(v: Version, e: Event)
    requires Publishes(v, e) && (e.DataPut? || e.DataDel? || e.DataTtl?)
    ensures Mutated(v.world, e) == v.world <==> Repeats(v, e)
  {
    hide StorageId;
    var storage, id := v.world.storage, StorageId(e.contract, e.durability, e.key);
    match e
    case DataPut(contract, durability, key, written) =>
      var liveUntil := if id in storage then storage[id].liveUntil else 0;
      SameEntryIff(storage, id, StorageEntry(id, contract, durability, key, written.value, liveUntil));
    case DataDel(_, _, _) => assert id !in storage - {id};
    case DataTtl(_, _, _, liveUntil) => SameEntryIff(storage, id, storage[id].(liveUntil := liveUntil));
  }

  lemma WorldRepeatsIff(v: Version, e: Event)
    requires Publishes(v, e) && !e.EndWasm? && !e.AddObject?
    ensures Mutated(v.world, e) == v.world <==> Repeats(v, e)
  {
    hide StorageId;
    var w := v.world;
    match e
    case InstanceTtl(contract, liveUntil) =>
      SameEntryIff(w.contracts, contract, w.contracts[contract].(liveUntil := liveUntil));
    case CodeTtl(hash, liveUntil) => SameEntryIff(w.codes, hash, liveUntil);
    case DeployContract(contract, wasmHash, liveUntil) =>
      SameEntryIff(w.contracts, contract, ContractMeta(wasmHash, liveUntil));
    case ContractCode(contract, wasmHash) =>
      var liveUntil := if contract in w.contracts then w.contracts[contract].liveUntil else 0;
      SameEntryIff(w.contracts, contract, ContractMeta(wasmHash, liveUntil));
    case Account(account, balance) => SameEntryIff(w.accounts, account, balance);
    case SetInfo(_) =>
    case _ => StorageRepeatsIff(v, e);
  }

  /** An event that publishes a version changes nothing exactly when it repeats what the image holds. */
  lemma PublishedChangesNothingIff(p: Progress, e: Event)
    requires Publishes(p.version, e)
    ensures MutationStep(p, e).version == p.version <==> Repeats(p.version, e)
  {
    if e.EndWasm? {
      assert |MutationStep(p, e).version.callStack| == |p.version.callStack| - 1;
    } else if e.AddObject? {
      assert |MutationStep(p, e).version.hostObjects| == |p.version.hostObjects| + 1;
    } else {
      WorldRepeatsIff(p.version, e);
    }
  }

  /** The other way round fails: writing the value an entry already has publishes a version that changes nothing. */
  lemma SamePutPublishes(p: Progress, contract: string, durability: Durability, key: ScVal)
    requires StorageId(contract, durability, key) in p.version.world.storage
    requires var entry := p.version.world.storage[StorageId(contract, durability, key)];
             entry == StorageEntry(
                        StorageId(contract, durability, key), contract, durability, key, entry.value, entry.liveUntil)
    ensures var same := p.version.world.storage[StorageId(contract, durability, key)].value;
            var e := DataPut(contract, durability, key, Some(same));
            Publishes(p.version, e) && MutationStep(p, e) == p
  {
    var id := StorageId(contract, durability, key);
    var storage := p.version.world.storage;
    assert storage[id := storage[id]] == storage;
  }

  /** The load-time scan (`class Scan`). */
  class Scan {
    var versions: seq<Version>
    var versionAt: seq<nat>
    var ledgerSeen: bool
    var current: Version
    var currentIndex: nat
    var savedWorlds: seq<World>

    ghost predicate Valid()
      reads this
    {
      currentIndex == |versions| - 1 && versions[currentIndex] == current
    }

    ghost function Position(): Progress
      reads this
    {
      Progress(current, savedWorlds)
    }

    constructor ()
      ensures Valid() && versions == [EMPTY_VERSION] && versionAt == [] && !ledgerSeen
      ensures current == EMPTY_VERSION && savedWorlds == []
    {
      versions, versionAt, ledgerSeen := [EMPTY_VERSION], [], false;
      current, currentIndex, savedWorlds := EMPTY_VERSION, 0, [];
    }

    method Commit(next: Version)
      requires Valid()
      modifies `current, `versions, `currentIndex
      ensures Valid() && current == next && versions == old(versions) + [next]
    {
      current := next;
      versions := versions + [next];
      currentIndex := |versions| - 1;
    }

    method PatchWorld(world: World)
      requires Valid()
      modifies `current, `versions, `currentIndex
      ensures Valid() && current == old(current).(world := world) && versions == old(versions) + [current]
    {
      Commit(current.(world := world));
    }

    /** Records which version the cursor sees while resting on the next record. */
    method MarkCursor()
      modifies `versionAt
      ensures versionAt == old(versionAt) + [currentIndex]
    {
      versionAt := versionAt + [currentIndex];
    }

    method SaveWorld(world: World)
      modifies `savedWorlds
      ensures savedWorlds == old(savedWorlds) + [world]
    {
      savedWorlds := savedWorlds + [world];
    }

    method TakeSavedWorld() returns (r: Option<World>)
      modifies `savedWorlds
      ensures old(savedWorlds) == [] ==> r == None && savedWorlds == []
      ensures old(savedWorlds) != [] ==>
                && r == Some(old(savedWorlds)[|old(savedWorlds)| - 1])
                && savedWorlds == old(savedWorlds)[..|old(savedWorlds)| - 1]
    {
      if savedWorlds == [] {
        return None;
      }
      r := Some(savedWorlds[|savedWorlds| - 1]);
      savedWorlds := savedWorlds[..|savedWorlds| - 1];
    }
  }

  method SeedAll(storage: map<string, StorageEntry>, contract: string, bs: seq<Baseline>)
    returns (r: map<string, StorageEntry>)
    ensures r == SeededAll(storage, contract, bs)
  {
    r := storage;
    for k := 0 to |bs|
      invariant r == SeededAll(storage, contract, bs[..k])
    {
      var id := StorageId(contract, bs[k].durability, bs[k].key);
      r := r[id := StorageEntry(id, contract, bs[k].durability, bs[k].key, bs[k].value, bs[k].liveUntil)];
      assert bs[..k + 1][..k] == bs[..k];
    }
    assert bs[..|bs|] == bs;
  }

  method StateBaseline(w: World, e: Event) returns (r: World)
    requires e.Snapshot?
    ensures r == Stated(w, e)
  {
    hide SeededAll;
    var storage, accounts, contracts, codes := w.storage, w.accounts, w.contracts, w.codes;
    var es, cs, hs := e.accounts, e.contracts, e.codes;
    for k := 0 to |es|
      invariant accounts == WithAccounts(w.accounts, es[..k])
    {
      accounts := accounts[es[k].account := es[k].balance];
      assert es[..k + 1][..k] == es[..k];
    }
    for k := 0 to |cs|
      invariant contracts == WithContracts(w.contracts, cs[..k])
      invariant storage == SeededContracts(w.storage, cs[..k])
    {
      contracts := contracts[cs[k].contract := ContractMeta(cs[k].wasmHash, cs[k].liveUntil)];
      storage := SeedAll(storage, cs[k].contract, cs[k].storage);
      assert cs[..k + 1][..k] == cs[..k];
    }
    for k := 0 to |hs|
      invariant codes == WithCodes(w.codes, hs[..k])
    {
      codes := codes[hs[k].hash := hs[k].liveUntil];
      assert hs[..k + 1][..k] == hs[..k];
    }
    assert es[..|es|] == es && cs[..|cs|] == cs && hs[..|hs|] == hs;
    r := World(storage, accounts, contracts, codes, Some(e.info));
  }

  method ApplySnapshot(scan: Scan, e: Event, index: nat)
    requires scan.Valid()
    modifies scan`current, scan`versions, scan`currentIndex, scan`savedWorlds
    ensures scan.Valid() && scan.Position() == SnapshotStep(old(scan.Position()), e, index)
    ensures scan.versions == old(scan.versions) + (if StatesAnything(e) then [scan.current] else [])
  {
    if e.Snapshot? {
      var world := StateBaseline(scan.current.world, e);
      scan.PatchWorld(world);
      return;
    }
    if e.CallContract? {
      var storage := SeedAll(scan.current.world.storage, e.call.callee, e.storage);
      var world := scan.current.world.(storage := storage);
      scan.Commit(Version(world, scan.current.hostObjects, scan.current.callStack + [CallFrame(e.call, index)]));
      scan.SaveWorld(world);
    }
  }

  /** `endWasm`: pop the frame, and roll back if the call failed. */
  method CloseCall(scan: Scan, success: bool)
    requires scan.Valid()
    modifies scan`current, scan`versions, scan`currentIndex, scan`savedWorlds
    ensures scan.Valid() && scan.Position() == MutationStep(old(scan.Position()), EndWasm(success))
    ensures scan.versions ==
            old(scan.versions) + (if Publishes(old(scan.current), EndWasm(success)) then [scan.current] else [])
  {
    var restore := scan.TakeSavedWorld();
    if |scan.current.callStack| == 0 {
      return;
    }
    var frames := scan.current.callStack;
    scan.Commit(Version(
      if !success && restore.Some? then restore.value else scan.current.world,
      scan.current.hostObjects, frames[..|frames| - 1]));
  }

  /** The `contractData` and data-`contractTtl` cases of `applyMutation`. */
  method ApplyDataMutation(scan: Scan, e: Event)
    requires scan.Valid() && (e.DataPut? || e.DataDel? || e.DataTtl?)
    modifies scan`current, scan`versions, scan`currentIndex
    ensures scan.Valid() && scan.current == old(scan.current).(world := Mutated(old(scan.current).world, e))
    ensures scan.versions == old(scan.versions) + (if Publishes(old(scan.current), e) then [scan.current] else [])
  {
    var w := scan.current.world;
    var id := StorageId(e.contract, e.durability, e.key);
    match e {
      case DataPut(contract, durability, key, written) =>
        if written.Some? {
          var liveUntil := if id in w.storage then w.storage[id].liveUntil else 0;
          var entry := StorageEntry(id, contract, durability, key, written.value, liveUntil);
          scan.PatchWorld(w.(storage := w.storage[id := entry]));
        }
      case DataDel(_, _, _) =>
        if id in w.storage {
          scan.PatchWorld(w.(storage := w.storage - {id}));
        } else {
          assert w.storage - {id} == w.storage;
        }
      case DataTtl(_, _, _, liveUntil) =>
        if id in w.storage {
          scan.PatchWorld(w.(storage := w.storage[id := w.storage[id].(liveUntil := liveUntil)]));
        }
    }
  }

  method ApplyMutation(scan: Scan, e: Event)
    requires scan.Valid()
    modifies scan`current, scan`versions, scan`currentIndex, scan`savedWorlds
    ensures scan.Valid() && scan.Position() == MutationStep(old(scan.Position()), e)
    ensures scan.versions == old(scan.versions) + (if Publishes(old(scan.current), e) then [scan.current] else [])
  {
    var w := scan.current.world;
    match e {
      case DataPut(_, _, _, _) => ApplyDataMutation(scan, e);
      case DataDel(_, _, _) => ApplyDataMutation(scan, e);
      case DataTtl(_, _, _, _) => ApplyDataMutation(scan, e);
      case InstanceTtl(contract, liveUntil) =>
        if contract in w.contracts {
          scan.PatchWorld(w.(contracts := w.contracts[contract := w.contracts[contract].(liveUntil := liveUntil)]));
        }
      case CodeTtl(hash, liveUntil) =>
        if hash in w.codes {
          scan.PatchWorld(w.(codes := w.codes[hash := liveUntil]));
        }
      case DeployContract(contract, wasmHash, liveUntil) =>
        scan.PatchWorld(w.(contracts := w.contracts[contract := ContractMeta(wasmHash, liveUntil)]));
      case ContractCode(contract, wasmHash) =>
        var liveUntil := if contract in w.contracts then w.contracts[contract].liveUntil else 0;
        scan.PatchWorld(w.(contracts := w.contracts[contract := ContractMeta(wasmHash, liveUntil)]));
      case Account(account, balance) =>
        scan.PatchWorld(w.(accounts := w.accounts[account := balance]));
      case SetInfo(info) =>
        scan.PatchWorld(w.(info := Some(info)));
      case AddObject(added) =>
        scan.Commit(scan.current.(hostObjects := scan.current.hostObjects + [added]));
      case EndWasm(success) =>
        CloseCall(scan, success);
      case _ =>
    }
  }

  function EventCount(records: Records, n: nat): nat
    requires n <= |records|
  {
    if n == 0 then 0 else EventCount(records, n - 1) + (if records[n - 1].Some? then 1 else 0)
  }

  /** The versioned index shows, at every marked record, what the scan shows there. */
  ghost predicate IndexesShown(records: Records, versions: seq<Version>, versionAt: seq<nat>) {
    && |versionAt| <= |records|
    && (forall i :: 0 <= i < |versionAt| ==> versionAt[i] < |versions| && versions[versionAt[i]] == Shown(records, i))
    && (forall i, j :: 0 <= i < j < |versionAt| ==> versionAt[i] <= versionAt[j])
  }

  /** The scan once records 0..n-1 are behind it. */
  ghost predicate ScannedTo(scan: Scan, records: Records, n: nat)
    reads scan
    requires n <= |records|
  {
    && scan.Valid() && scan.Position() == ProgressAfter(records, n)
    && |scan.versionAt| == n && IndexesShown(records, scan.versions, scan.versionAt)
    && (forall k :: 0 <= k < n ==> scan.versionAt[k] <= scan.currentIndex)
    && |scan.versions| <= 1 + EventCount(records, n)
  }

  /** Extending the version list and marking one more record keeps the index right. */
  lemma IndexGrows(records: Records, before: seq<Version>, after: seq<Version>, versionAt: seq<nat>, i: nat)
    requires i < |records| && |versionAt| == i && IndexesShown(records, before, versionAt)
    requires before <= after && after != [] && after[|after| - 1] == Shown(records, i)
    requires forall k :: 0 <= k < i ==> versionAt[k] < |before|
    ensures IndexesShown(records, after, versionAt + [|after| - 1])
  {
  }

  lemma IndexOutlives(records: Records, before: seq<Version>, after: seq<Version>, versionAt: seq<nat>)
    requires IndexesShown(records, before, versionAt) && before <= after
    ensures IndexesShown(records, after, versionAt)
  {
  }

  /** One iteration of the load-time loop. */
  method ScanRecord(scan: Scan, ghost records: Records, event: Option<Event>, i: nat)
    requires i < |records| && records[i] == event && ScannedTo(scan, records, i)
    modifies scan
    ensures ScannedTo(scan, records, i + 1)
    ensures scan.ledgerSeen <==> old(scan.ledgerSeen) || event.Some?
  {
    ghost var before := scan.versions;
    if event.Some? {
      scan.ledgerSeen := true;
      ApplySnapshot(scan, event.value, i);
    }
    ghost var stated := scan.versions;
    assert scan.current == Shown(records, i);
    IndexGrows(records, before, stated, scan.versionAt, i);
    scan.MarkCursor();
    if event.Some? {
      ApplyMutation(scan, event.value);
    }
    IndexOutlives(records, stated, scan.versions, scan.versionAt);
  }

  class LedgerImage {
    const versions: seq<Version>
    const versionAt: seq<nat>
    const recordCount: nat
    const ledgerSeen: bool
    ghost const records: Records

    ghost predicate Valid() {
      && recordCount == |records| == |versionAt|
      && IndexesShown(records, versions, versionAt)
    }

    /** One scan; at most one version per event record, and quiet records share one. */
    constructor (records: Records)
      ensures Valid() && this.records == records
      ensures ledgerSeen <==> exists i :: 0 <= i < |records| && records[i].Some?
      ensures |versions| <= 1 + EventCount(records, |records|)
    {
      var scan := new Scan();
      for i := 0 to |records|
        invariant fresh(scan) && ScannedTo(scan, records, i)
        invariant scan.ledgerSeen <==> exists k :: 0 <= k < i && records[k].Some?
      {
        ScanRecord(scan, records, records[i], i);
      }
      this.records := records;
      versions, versionAt, recordCount, ledgerSeen := scan.versions, scan.versionAt, |records|, scan.ledgerSeen;
    }

    /** The version at `cursor`, clamped to the trace: whatever was asked before, what the reference shows. */
    method At(cursor: int) returns (v: Version)
      requires Valid()
      ensures v == if |records| == 0 then EMPTY_VERSION else Reference(records, Max(0, Min(cursor, |records| - 1)))
    {
      if recordCount == 0 {
        return EMPTY_VERSION;
      }
      var clamped := Max(0, Min(cursor, recordCount - 1));
      ShownIsReference(records, clamped);
      v := versions[versionAt[clamped]];
    }

    /** The ids whose entry was added, removed, or differs by value key or TTL between two cursors. */
    method ChangedSince(origin: int, cursor: int) returns (changed: set<string>)
      requires Valid()
      ensures |records| > 0 ==>
                forall id :: id in changed <==>
                  Differs(Reference(records, Max(0, Min(origin, |records| - 1))).world.storage,
                          Reference(records, Max(0, Min(cursor, |records| - 1))).world.storage, id)
      ensures |records| == 0 ==> changed == {}
    {
      var a := At(origin);
      var b := At(cursor);
      changed := ChangedIds(a.world.storage, b.world.storage);
      assert forall id :: !Differs(EMPTY_WORLD.storage, EMPTY_WORLD.storage, id);
    }
  }

  ghost predicate Differs(before: map<string, StorageEntry>, after: map<string, StorageEntry>, id: string) {
    || (id in before && id !in after)
    || (id !in before && id in after)
    || (id in before && id in after
        && (before[id].liveUntil != after[id].liveUntil || ScvalKey(before[id].value) != ScvalKey(after[id].value)))
  }

  method ChangedIds(before: map<string, StorageEntry>, after: map<string, StorageEntry>) returns (changed: set<string>)
    ensures forall id :: id in changed <==> Differs(before, after, id)
  {
    changed := {};
    if before == after {
      return;
    }
    var rest := after.Keys;
    while rest != {}
      invariant rest <= after.Keys
      invariant forall id :: id in changed <==> id in after && id !in rest && Differs(before, after, id)
      decreases rest
    {
      var id :| id in rest;
      rest := rest - {id};
      var entry := after[id];
      if id !in before || before[id].liveUntil != entry.liveUntil
         || ScvalKey(before[id].value) != ScvalKey(entry.value) {
        changed := changed + {id};
      }
    }
    rest := before.Keys;
    while rest != {}
      invariant rest <= before.Keys
      invariant forall id :: id in changed <==> (id in after || id !in rest) && Differs(before, after, id)
      decreases rest
    {
      var id :| id in rest;
      rest := rest - {id};
      if id !in after {
        changed := changed + {id};
      }
    }
  }
}
