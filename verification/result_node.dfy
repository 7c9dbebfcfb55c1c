/** `ResultNode` of src/nodes/ResultNode.ts: an AST node with a result slot
    holding an object or null. `Object.freeze` on the node is shallow: it
    does not freeze the internal slot, so a frozen node still updates. */
module ResultNode {
  import opened Wrappers
  import opened JsValues

  /** The internal slot, and whether the node itself is frozen. */
  datatype Node = Node(internal: JsValue, frozen: bool)

  /** The slot holds something `typeof` calls an object, null included. */
  predicate Valid(n: Node)
  {
    IsObject(n.internal)
  }

  /** `ResultNode.new()`: a frozen node whose result is null. */
  function New(): (n: Node)
    ensures Valid(n) && GetResult(n) == Null && n.frozen
  {
    Node(Null, true)
  }

  /** The `result` getter: the internal slot as it is now. */
  function GetResult(n: Node): JsValue
  {
    n.internal
  }

  /** `reset()`. */
  function Reset(n: Node): (r: Node)
    ensures GetResult(r) == Null && r.frozen == n.frozen && Valid(r)
  {
    n.(internal := Null)
  }

  /** `update(result)`: a value `typeof` does not call an object throws and
      leaves the node as it was; otherwise the slot takes the value, on a
      frozen node too. */
  function Update(n: Node, result: JsValue): (r: (Node, Outcome))
    ensures r.1.Pass? <==> IsObject(result)
    ensures r.1.Pass? ==> GetResult(r.0) == result && r.0.frozen == n.frozen
    ensures r.1.Fail? ==> r.0 == n
  {
    if !IsObject(result) then (n, Fail(AssertionError("result must be of type object")))
    else (n.(internal := result), Pass)
  }

  /** Null is accepted by `update`, since `typeof null` is `'object'`;
      numbers, strings, booleans and `undefined` are refused. */
  lemma UpdateAcceptsNull(n: Node)
    ensures Update(n, Null).1.Pass? && GetResult(Update(n, Null).0) == Null
    ensures Update(n, Undefined).1.Fail? && Update(n, Num(0)).1.Fail?
    ensures Update(n, Str("")).1.Fail? && Update(n, Bool(true)).1.Fail?
  {
  }

  /** Every call keeps the slot an object or null. */
  lemma CallsKeepValid(n: Node, result: JsValue)
    requires Valid(n)
    ensures Valid(Reset(n)) && Valid(Update(n, result).0)
  {
  }
}
