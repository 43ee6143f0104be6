/** Control-flow graphs with PHI nodes, and what running them does. */
module ControlFlow {
  import opened Options

  type Id = nat

  /** What flows into a PHI node: a value of the function, or the value that an edge block loads for the node. */
  datatype Operand = Value(name: nat) | Temp(mid: Id, phi: nat)

  /** A PHI node. An entry is a predecessor block and the operand that comes from it. */
  datatype Phi = Phi(dest: nat, blocks: seq<Id>, operands: seq<Operand>)

  datatype Kind = Jump | Branch | Switch | Other

  datatype Call = CoverBranch(here: nat, other: nat) | CoverSwitch(here: nat, all: seq<nat>)

  /** A block of the function, or a block put on an edge: a call, copies for the PHI nodes behind it, a jump. */
  datatype Block =
    | Original(phis: seq<Phi>, insertable: bool, kind: Kind, succs: seq<Id>)
    | Edge(copies: seq<Option<Operand>>, call: Option<Call>, to: Id)

  type Graph = map<Id, Block>

  /** The index of the first entry for `b`. */
  function FirstIndex(blocks: seq<Id>, b: Id): (index: Option<nat>)
    ensures index.None? <==> b !in blocks
    ensures index.Some? ==> index.value < |blocks| && blocks[index.value] == b
  {
    if blocks == [] then None
    else if blocks[0] == b then Some(0)
    else
      match FirstIndex(blocks[1..], b)
      case None => None
      case Some(i) => Some(i + 1)
  }

  function Incoming(phi: Phi, from: Id): (op: Option<Operand>)
    requires |phi.blocks| == |phi.operands|
  {
    match FirstIndex(phi.blocks, from)
    case None => None
    case Some(j) => Some(phi.operands[j])
  }

  /** A PHI node has an entry for each edge into its block, and entries for the same block agree. */
  ghost predicate WellFormedPhi(g: Graph, t: Id, phi: Phi)
    requires forall b <- g :: g[b].Original?
  {
    && |phi.blocks| == |phi.operands|
    && (forall j | 0 <= j < |phi.blocks| :: phi.blocks[j] in g && phi.operands[j].Value?)
    && (forall i, j | 0 <= i < |phi.blocks| && 0 <= j < |phi.blocks| && phi.blocks[i] == phi.blocks[j] ::
          phi.operands[i] == phi.operands[j])
    && (forall b <- g :: multiset(phi.blocks)[b] == multiset(g[b].succs)[t])
  }

  ghost predicate WellFormed(g: Graph) {
    && (forall b <- g :: g[b].Original?)
    && (forall b <- g, s <- g[b].succs :: s in g)
    && (forall b <- g :: (g[b].kind.Branch? ==> |g[b].succs| == 2) && (g[b].kind.Switch? ==> |g[b].succs| >= 1))
    && (forall t <- g, phi <- g[t].phis :: WellFormedPhi(g, t, phi))
  }

  // ---------------------------------------------------------------- running

  type Env = map<nat, int>

  /** What the instructions of a block do, and which successor it then goes to. */
  datatype Semantics = Semantics(body: (Id, Env) -> Env, choose: (Id, Env) -> nat)

  /** About to enter `at`, coming from `from`. */
  datatype State = At(at: Id, from: Id, env: Env, temps: map<(Id, nat), int>) | Done

  /** A visit to a block records the values after its PHI nodes and the successor chosen. */
  datatype Item = Visit(block: Id, env: Env, choice: nat) | Covered(call: Call)

  function Lookup<K>(m: map<K, int>, key: K): int {
    if key in m then m[key] else 0
  }

  function Eval(op: Operand, env: Env, temps: map<(Id, nat), int>): int {
    match op
    case Value(name) => Lookup(env, name)
    case Temp(mid, phi) => Lookup(temps, (mid, phi))
  }

  ghost predicate Paired(phis: seq<Phi>) {
    forall k | 0 <= k < |phis| :: |phis[k].blocks| == |phis[k].operands|
  }

  /** All PHI nodes read the values from before any of them is set. */
  function AssignPhis(phis: seq<Phi>, from: Id, env: Env, temps: map<(Id, nat), int>): Env
    requires Paired(phis)
  {
    if phis == [] then env else
      var last := |phis| - 1;
      var rest := AssignPhis(phis[..last], from, env, temps);
      match Incoming(phis[last], from)
      case None => rest
      case Some(op) => rest[phis[last].dest := Eval(op, env, temps)]
  }

  /** The copies of an edge block, kept under the block's name. */
  function CopyTemps(mid: Id, copies: seq<Option<Operand>>, env: Env, temps: map<(Id, nat), int>)
    : map<(Id, nat), int>
  {
    if copies == [] then temps else
      var last := |copies| - 1;
      var rest := CopyTemps(mid, copies[..last], env, temps);
      match copies[last]
      case None => rest
      case Some(op) => rest[(mid, last) := Eval(op, env, temps)]
  }

  ghost predicate Runnable(g: Graph) {
    forall b <- g | g[b].Original? :: Paired(g[b].phis)
  }

  ghost function Step(g: Graph, sem: Semantics, s: State): (State, seq<Item>)
    requires Runnable(g)
  {
    if s.Done? || s.at !in g then (Done, []) else
      match g[s.at]
      case Original(phis, _, _, succs) =>
        var entered := AssignPhis(phis, s.from, s.env, s.temps);
        var left := sem.body(s.at, entered);
        var i := sem.choose(s.at, left);
        (if i < |succs| then At(succs[i], s.at, left, s.temps) else Done, [Visit(s.at, entered, i)])
      case Edge(copies, call, to) =>
        (At(to, s.at, s.env, CopyTemps(s.at, copies, s.env, s.temps)),
         match call case None => [] case Some(c) => [Covered(c)])
  }

  ghost function Run(g: Graph, sem: Semantics, s: State, n: nat): (State, seq<Item>)
    requires Runnable(g)
  {
    if n == 0 then (s, []) else
      var (before, log) := Run(g, sem, s, n - 1);
      var (after, items) := Step(g, sem, before);
      (after, log + items)
  }
}
