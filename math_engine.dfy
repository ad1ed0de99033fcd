/** The part of mathjs the calculator calls, as parameters of the model: parsing an expression,
    compiling a parse tree, evaluating the compiled code at a value of `x`, and symbolic
    differentiation. Nothing about what these compute is assumed; the analysis routines are proved for
    every engine. */
module MathEngine {
  import opened Wrappers
  import opened JsNumber

  /** What `compiled.evaluate({ x })` does: return a number, or throw. */
  datatype Outcome = Value(n: Num) | Throws

  /** A parse tree, known to the model only by its printed form (`node.toString()`). */
  datatype Node = Node(text: string)

  /** Compiled code: its evaluator. */
  datatype Expr = Expr(eval: real -> Outcome)

  /** `math.parse(text)`, `node.compile()` and `math.derivative(node, 'x')`, each `None` when it throws. */
  datatype Engine = Engine(parse: string -> Option<Node>, compile: Node -> Option<Expr>,
                           derivative: Node -> Option<Node>)
  {
    /** `math.parse(text).compile()`: `None` when either step throws. */
    function Load(text: string): (e: Option<Expr>)
      ensures e.Some? <==> parse(text).Some? && compile(parse(text).value).Some?
    {
      match parse(text)
      case None => None
      case Some(node) => compile(node)
    }
  }
}
