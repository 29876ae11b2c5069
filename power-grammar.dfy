/** The recursive grammar of the `RecursiveParserTests` in
    src/test/parser4k/calculator-tests.kt: a power is an expression, the "^"
    token and an expression, with `nonRecRef` guarding the left operand, and
    an expression is a power or else a number. The grammar is left recursive
    (a power starts with an expression); the offsets the guard holds are what
    make it terminate, and what make "^" nest to the right. */
module PowerGrammar {
  import opened Core
  import InOrder
  import OneOf
  import References

  datatype Expression = Number(digits: string) | Power(left: Expression, right: Expression)

  /** The grammar's two leaves: the number parser and the "^" token. All the
      grammar needs of them is that each match consumes input. */
  ghost predicate Leaves(number: Parser<Expression, Expression>, caret: Parser<string, Expression>) {
    Progressive(number) && Progressive(caret)
  }

  /** The offsets of a text, the end included: the guard can hold no more. */
  function Offsets(text: string): set<nat> {
    UpTo(|text|)
  }

  function UpTo(n: nat): (r: set<nat>)
    ensures forall k: nat :: k in r <==> k <= n
  {
    if n == 0 then {0} else UpTo(n - 1) + {n}
  }

  /** `expr` with the guard of the power's left operand holding `active`:
      the power if it matches, else the number (`oneOf(power, number)`).
      Defining it at all is the termination proof: every recursive call either
      reads less text or is made with one more offset held. */
  function Expr(
    number: Parser<Expression, Expression>, caret: Parser<string, Expression>,
    active: set<nat>, i: Input<Expression>)
    : (r: Option<Output<Expression, Expression>>)
    requires Leaves(number, caret) && Valid(i)
    ensures r.Some? ==> Consumes(i, r.value.next)
    decreases Remaining(i), Offsets(i.text) - active, 1
  {
    var power := PowerAt(number, caret, active, i);
    if power.Some? then power else number(i)
  }

  /** `power`: the left operand through `nonRecRef` (refused at an offset it
      holds; otherwise parsed with that offset held), then the "^" token, then
      the right operand through plain `ref`, with the guard released again;
      `mapAsBinary(::Power)` keeps the two operands. */
  function PowerAt(
    number: Parser<Expression, Expression>, caret: Parser<string, Expression>,
    active: set<nat>, i: Input<Expression>)
    : (r: Option<Output<Expression, Expression>>)
    requires Leaves(number, caret) && Valid(i)
    ensures r.Some? ==> Consumes(i, r.value.next)
    decreases Remaining(i), Offsets(i.text) - active, 0
  {
    if i.offset in active then None
    else
      assert Offsets(i.text) - (active + {i.offset}) < Offsets(i.text) - active by {
        assert i.offset in Offsets(i.text) - active;
      }
      match Expr(number, caret, active + {i.offset}, i)
      case None => None
      case Some(left) =>
        match caret(left.next)
        case None => None
        case Some(op) =>
          match Expr(number, caret, active, op.next)
          case None => None
          case Some(right) => Some(Output(Power(left.payload, right.payload), right.next))
  }

  /** `nonRecRef { expr }`'s delegate: `expr` with the guard holding `held`. */
  ghost function ExprDelegate(number: Parser<Expression, Expression>, caret: Parser<string, Expression>)
    : References.GuardedDelegate<Expression, Expression>
    requires Leaves(number, caret)
  {
    (held: set<nat>, j: Input<Expression>) => if Valid(j) then Expr(number, caret, held, j) else None
  }

  /** `ref { expr }`, with the guard holding `active`. */
  ghost function ExprRef(number: Parser<Expression, Expression>, caret: Parser<string, Expression>, active: set<nat>)
    : Parser<Expression, Expression>
    requires Leaves(number, caret)
  {
    (j: Input<Expression>) => if Valid(j) then Expr(number, caret, active, j) else None
  }

  /** `power`, with the guard holding `active`. */
  ghost function PowerParser(number: Parser<Expression, Expression>, caret: Parser<string, Expression>, active: set<nat>)
    : Parser<Expression, Expression>
    requires Leaves(number, caret)
  {
    (j: Input<Expression>) => if Valid(j) then PowerAt(number, caret, active, j) else None
  }

  /** The grammar is the library's: `power` is
      `inOrder(nonRecRef { expr }, token("^"), ref { expr }).mapAsBinary(::Power)`
      and `expr` is `oneOf(power, number)`. */
  lemma IsLibraryGrammar(
    number: Parser<Expression, Expression>, caret: Parser<string, Expression>,
    active: set<nat>, i: Input<Expression>)
    requires Leaves(number, caret) && Valid(i)
    ensures PowerAt(number, caret, active, i) ==
      InOrder.MapAsBinary(
        InOrder.InOrder3(References.Guard(active, ExprDelegate(number, caret)), caret, ExprRef(number, caret, active)),
        (l: Expression, r: Expression) => Power(l, r))(i)
    ensures Expr(number, caret, active, i) ==
      OneOf.OneOf([PowerParser(number, caret, active), number])(i)
  {
    var power := PowerParser(number, caret, active);
    assert [power, number][1..] == [number] && [number][1..] == [];
    assert OneOf.FirstMatch([number], i) == number(i);
  }

  /** Inside the power's left operand the guard holds the offset, so the
      power is refused there and the left operand is just a number. */
  lemma LeftOperandIsNumber(
    number: Parser<Expression, Expression>, caret: Parser<string, Expression>,
    active: set<nat>, i: Input<Expression>)
    requires Leaves(number, caret) && Valid(i)
    ensures Expr(number, caret, active + {i.offset}, i) == number(i)
  {
    assert PowerAt(number, caret, active + {i.offset}, i) == None;
  }

  /** So a power is a number, "^", and a whole expression after it: the shape
      of "1 ^ (2 ^ 3)". */
  lemma PowerIsNumberThenExpr(
    number: Parser<Expression, Expression>, caret: Parser<string, Expression>,
    active: set<nat>, i: Input<Expression>)
    requires Leaves(number, caret) && Valid(i) && i.offset !in active
    ensures PowerAt(number, caret, active, i) ==
      match number(i)
      case None => None
      case Some(left) =>
        match caret(left.next)
        case None => None
        case Some(op) =>
          match Expr(number, caret, active, op.next)
          case None => None
          case Some(right) => Some(Output(Power(left.payload, right.payload), right.next))
  {
    LeftOperandIsNumber(number, caret, active, i);
  }

  /** A chain of powers leaning right: every left operand is a number. */
  predicate RightNested(e: Expression) {
    match e
    case Number(_) => true
    case Power(left, right) => left.Number? && RightNested(right)
  }

  /** The number parser yields numbers. */
  ghost predicate YieldsNumbers(number: Parser<Expression, Expression>) {
    forall i :: number(i).Some? ==> number(i).value.payload.Number?
  }

  /** Whatever the grammar parses is right nested: "1 ^ 2 ^ 3" can only come
      out as (1 ^ (2 ^ 3)), and "1 ^ 2 ^ 3 ^ 4" as (1 ^ (2 ^ (3 ^ 4))). */
  lemma {:induction false} ExprIsRightNested(
    number: Parser<Expression, Expression>, caret: Parser<string, Expression>,
    active: set<nat>, i: Input<Expression>)
    requires Leaves(number, caret) && YieldsNumbers(number) && Valid(i)
    ensures Expr(number, caret, active, i).Some? ==> RightNested(Expr(number, caret, active, i).value.payload)
    decreases Remaining(i)
  {
    var power := PowerAt(number, caret, active, i);
    if power.Some? {
      PowerIsNumberThenExpr(number, caret, active, i);
      var left := number(i).value;
      var op := caret(left.next).value;
      ExprIsRightNested(number, caret, active, op.next);
    }
  }
}
