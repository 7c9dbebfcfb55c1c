/** `EqualityNode` of src/nodes/EqualityNode.ts: an AST node whose action is
    one of three strings. The mutable instance the constructor builds is
    modelled; the instance `EqualityNode.new` freezes is not. */
module EqualityNode {
  import opened Wrappers
  import opened JsValues

  const ASSIGN: string := "assign"
  const EVALUATE: string := "evaluate"
  const UNKNOWN: string := "unknown"

  /** The action values `update` accepts. */
  const VALID_ACTIONS: seq<string> := [ASSIGN, EVALUATE, UNKNOWN]

  datatype Node = Node(action: string)

  /** The action is one of the three valid values. */
  predicate Valid(n: Node)
  {
    n.action in VALID_ACTIONS
  }

  /** A new node's action is `'unknown'`. */
  function New(): (n: Node)
    ensures Valid(n) && n.action == UNKNOWN
  {
    Node(UNKNOWN)
  }

  /** `reset()`. */
  function Reset(n: Node): (r: Node)
    ensures Valid(r) && r.action == UNKNOWN
  {
    Node(UNKNOWN)
  }

  /** `update(action)`: a value that is not a string, or a string outside the
      valid values, throws a `TypeError` and leaves the node as it was;
      otherwise the action becomes that string. */
  function Update(n: Node, action: JsValue): (r: (Node, Outcome))
    ensures r.1.Pass? <==> action.Str? && action.s in VALID_ACTIONS
    ensures r.1.Pass? ==> r.0.action == action.s
    ensures r.1.Fail? ==> r.0 == n && r.1.error.TypeError?
  {
    if !action.Str? then (n, Fail(TypeError("action must be of type string")))
    else if action.s !in VALID_ACTIONS then (n, Fail(TypeError("action must be assign, evaluate or unknown")))
    else (Node(action.s), Pass)
  }

  /** A call on the node. */
  datatype Call = ResetCall | UpdateCall(action: JsValue)

  function Apply(n: Node, call: Call): Node
  {
    match call
    case ResetCall => Reset(n)
    case UpdateCall(a) => Update(n, a).0
  }

  /** The node after a sequence of calls, failed ones included. */
  function Run(n: Node, calls: seq<Call>): Node
    decreases |calls|
  {
    if |calls| == 0 then n else Run(Apply(n, calls[0]), calls[1..])
  }

  /** Whatever calls are made, a new node's action stays valid. */
  lemma {:induction false} RunKeepsValid(n: Node, calls: seq<Call>)
    requires Valid(n)
    ensures Valid(Run(n, calls))
    decreases |calls|
  {
    if |calls| > 0 {
      RunKeepsValid(Apply(n, calls[0]), calls[1..]);
    }
  }

  /** A call that decides the action: a reset, or an update `update`
      accepts. Every other call fails and leaves the node as it was. */
  predicate Decides(call: Call)
  {
    call.ResetCall? || (call.action.Str? && call.action.s in VALID_ACTIONS)
  }

  /** The action a deciding call leaves behind. */
  function Decided(call: Call): string
    requires Decides(call)
  {
    if call.ResetCall? then UNKNOWN else call.action.s
  }

  /** No call at position `k` or later decides the action. */
  predicate NoneDecidesFrom(calls: seq<Call>, k: nat)
  {
    forall j :: k <= j < |calls| ==> !Decides(calls[j])
  }

  /** The last deciding call sets the action: `'unknown'` for a reset, the
      string for an accepted update. When no call decides, the node is
      unchanged. */
  lemma {:induction false} RunIsLastAccepted(n: Node, calls: seq<Call>)
    ensures NoneDecidesFrom(calls, 0) ==> Run(n, calls) == n
    ensures forall k :: 0 <= k < |calls| && Decides(calls[k]) && NoneDecidesFrom(calls, k + 1) ==>
      Run(n, calls).action == Decided(calls[k])
    decreases |calls|
  {
    if |calls| > 0 {
      var rest := calls[1..];
      var next := Apply(n, calls[0]);
      RunIsLastAccepted(next, rest);
      assert forall j :: 1 <= j < |calls| ==> calls[j] == rest[j - 1];
      if !Decides(calls[0]) {
        assert next == n;
      }
      forall k | 0 <= k < |calls| && Decides(calls[k]) && NoneDecidesFrom(calls, k + 1)
        ensures Run(n, calls).action == Decided(calls[k])
      {
        if k == 0 {
          assert NoneDecidesFrom(rest, 0);
        } else {
          assert Decides(rest[k - 1]) && NoneDecidesFrom(rest, k);
        }
      }
    }
  }
}
