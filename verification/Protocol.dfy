/** The acknowledge-after-log protocol of anarchoredis/txn.go as interleaved steps of many requests,
    the upstream store, its replication stream, the log, and the lock set. */
module Protocol {
  import opened Options

  type Key = string

  /** The upstream store; a key that is absent, or present with None, has no value. */
  type Store = map<Key, Option<string>>

  function Lookup(store: Store, k: Key): Option<string> {
    if k in store then store[k] else None
  }

  /** A command reads and writes no keys but `keys`. */
  datatype Command = Command(write: bool, keys: set<Key>)

  /** A write as the replication stream carries it: its effect, and the request it came from. */
  datatype Entry = Entry(req: nat, keys: set<Key>, delta: Store)

  /** How far `proxy` has got with a request. */
  datatype Phase = Submitted | Locked | Forwarded | Responded | Waiting | Answered

  /** A request. `position` is how many entries the replication stream had when the upstream store
      had executed it, its own included; `streamed` says that it has one; `values` is what it found
      on its keys, which is all that its answer can depend on.
      `wait` and `from` belong to AwaitUnlocked: the keys it waits for, and the first removal it has
      not been told of. `seen` and `earlier` record, at submission, how long the log was and
      which requests had been answered; `until` records how long it was when this one was answered. */
  datatype Request = Request(
    cmd: Command, phase: Phase, seen: nat, earlier: set<nat>,
    position: nat, streamed: bool, values: Store, wait: set<Key>, from: nat, until: nat)
  {
    predicate Executed() { phase.Forwarded? || phase.Responded? || phase.Waiting? || phase.Answered? }
  }

  /** `history` is the replication stream from its beginning; the log is what has been appended of
      it. `unlocking` says that the last log entry still has its keys locked. `removals` are the
      batches of locks removed so far. */
  datatype State = State(
    store: Store, history: seq<Entry>, log: seq<Entry>, unlocking: bool,
    locks: map<Key, nat>, removals: seq<set<Key>>, reqs: map<nat, Request>)

  /** The order of the steps of a write: locking before forwarding, as intended, with the locks
      mutually exclusive; or forwarding first and then putting the locks blindly, as coded. */
  datatype Order = LockFirst | ForwardFirst

  datatype Step =
    | Submit(req: nat, cmd: Command)
    | Lock(req: nat)
    | Write(req: nat, delta: Store, streamed: bool)
    | Read(req: nat)
    | Append
    | Unlock
    | Check(req: nat)
    | Deliver(req: nat, batch: nat)

  const Init := State(map[], [], [], false, map[], [], map[])

  predicate In(s: State, r: nat, phase: Phase) { r in s.reqs && s.reqs[r].phase == phase }

  predicate Enabled(order: Order, s: State, step: Step) {
    match step
    case Submit(r, _) => r !in s.reqs
    case Lock(r) =>
      if order.LockFirst? then In(s, r, Submitted) && s.reqs[r].cmd.write && s.reqs[r].cmd.keys !! s.locks.Keys
      else In(s, r, Forwarded)
    case Write(r, delta, streamed) =>
      && In(s, r, if order.LockFirst? then Locked else Submitted) && s.reqs[r].cmd.write
      && delta.Keys <= s.reqs[r].cmd.keys && (!streamed ==> delta == map[])
    case Read(r) => In(s, r, Submitted) && !s.reqs[r].cmd.write
    case Append => !s.unlocking && |s.log| < |s.history|
    case Unlock => s.unlocking && s.log != []
    case Check(r) => In(s, r, Responded)
    case Deliver(r, i) => In(s, r, Waiting) && s.reqs[r].from <= i < |s.removals|
  }

  function Found(s: State, keys: set<Key>): Store {
    map k | k in keys :: Lookup(s.store, k)
  }

  /** AwaitUnlocked answers at once when it waits for no key. */
  function Await(s: State, r: nat, wait: set<Key>, from: nat): State
    requires r in s.reqs
  {
    s.(reqs := s.reqs[r := s.reqs[r].(phase := if wait == {} then Answered else Waiting,
                                      wait := wait, from := from, until := |s.log|)])
  }

  function Next(order: Order, s: State, step: Step): State
    requires Enabled(order, s, step)
  {
    match step
    case Submit(r, cmd) =>
      var answered := set a | a in s.reqs && s.reqs[a].phase.Answered?;
      s.(reqs := s.reqs[r := Request(cmd, Submitted, |s.log|, answered, 0, false, map[], {}, 0, 0)])
    case Lock(r) =>
      s.(locks := s.locks + map k | k in s.reqs[r].cmd.keys :: r,
         reqs := s.reqs[r := s.reqs[r].(phase := if order.LockFirst? then Locked else Responded)])
    case Write(r, delta, streamed) =>
      var history := if streamed then s.history + [Entry(r, s.reqs[r].cmd.keys, delta)] else s.history;
      s.(store := s.store + delta, history := history,
         reqs := s.reqs[r := s.reqs[r].(phase := if order.LockFirst? then Responded else Forwarded,
                                        position := |history|, streamed := streamed,
                                        values := Found(s, s.reqs[r].cmd.keys))])
    case Read(r) =>
      s.(reqs := s.reqs[r := s.reqs[r].(phase := Responded, position := |s.history|,
                                        values := Found(s, s.reqs[r].cmd.keys))])
    case Append =>
      s.(log := s.log + [s.history[|s.log|]], unlocking := true)
    case Unlock =>
      var keys := s.log[|s.log| - 1].keys;
      s.(locks := s.locks - keys, removals := s.removals + [keys], unlocking := false)
    case Check(r) =>
      Await(s, r, s.reqs[r].cmd.keys * s.locks.Keys, |s.removals|)
    case Deliver(r, i) =>
      Await(s, r, s.reqs[r].wait - s.removals[i], i + 1)
  }

  /** Where the steps in turn lead from `s`, if each is enabled when it is taken. */
  function Run(order: Order, s: State, steps: seq<Step>): Option<State>
    decreases |steps|
  {
    if steps == [] then Some(s)
    else if Enabled(order, s, steps[0]) then Run(order, Next(order, s, steps[0]), steps[1..])
    else None
  }

  /** What the log says the store holds. */
  function Replay(entries: seq<Entry>): Store {
    if entries == [] then map[] else Replay(entries[..|entries| - 1]) + entries[|entries| - 1].delta
  }
}
