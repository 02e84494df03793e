/** The shunting-yard parser of expression_parser.cpp. */
module ExpressionParser {
  import opened Sequences
  import opened Options

  /** OTHER stands for the operators that getPriority and the operator tables do not know, such as "." and "^". */
  datatype Operator =
    | MUL | DIV | MOD | ADD | SUB
    | EQ | NE | GT | GE | LT | LE
    | NOT | AND | OR
    | OPEN
    | OTHER

  datatype Token =
    | Identifier(data: string)
    | Number(data: string)
    | Text(data: string)
    | Operators(op: Operator, data: string)
    | Punctuation(data: string)
    | Keyword(data: string)

  datatype Expression =
    | Attribute(table: string, attribute: string)
    | Value(token: Token)
    | Unary(operand: Expression)
    | Binary(op: Operator, lhs: Expression, rhs: Expression)

  datatype Outcome =
    | Parsed(e: Expression, index: nat)
    | Failed(reason: string)
    /** The source takes the top of an empty stack. */
    | Undefined

  /** getPriority. */
  function Priority(op: Operator): nat {
    match op
    case MUL => 5 case DIV => 5 case MOD => 5
    case ADD => 4 case SUB => 4
    case EQ => 3 case NE => 3 case GT => 3 case GE => 3 case LT => 3 case LE => 3
    case NOT => 2
    case AND => 1 case OR => 1
    case OPEN => 0
    case OTHER => 0
  }

  predicate IsBinary(op: Operator) {
    op != NOT && op != OPEN && op != OTHER
  }

  /** exeOp: an operator without a meaning takes its operands and yields nothing. */
  function ExeOp(op: Operator, result: seq<Expression>): Option<seq<Expression>> {
    if op == NOT then
      if |result| < 1 then None else Some(result[..|result|-1] + [Unary(result[|result|-1])])
    else if |result| < 2 then None
    else if IsBinary(op) then Some(result[..|result|-2] + [Binary(op, result[|result|-2], result[|result|-1])])
    else Some(result[..|result|-2])
  }

  datatype Stacks = Stacks(result: seq<Expression>, ops: seq<Operator>) | Underflow

  /** Where the three loops over the operator stack stop: in front of an operator that binds less tightly,
      at a closing parenthesis, and behind the last token. */
  datatype Stop = Looser(priority: nat) | AtParenthesis | Never

  predicate StopsAt(stop: Stop, op: Operator) {
    match stop
    case Looser(priority) => Priority(op) < priority
    case AtParenthesis => op == OPEN
    case Never => false
  }

  /** Execute operators from the top of the stack. */
  function Pop(result: seq<Expression>, ops: seq<Operator>, stop: Stop): Stacks
    decreases |ops|
  {
    if ops == [] || StopsAt(stop, ops[|ops|-1]) then Stacks(result, ops)
    else match ExeOp(ops[|ops|-1], result)
      case None => Underflow
      case Some(r) => Pop(r, ops[..|ops|-1], stop)
  }

  /** isContinued, at a token that is there. */
  predicate IsContinued(t: Token, endToken: string) {
    && t.data != endToken
    && match t
       case Punctuation(c) => c == "(" || c == ")"
       case Keyword(_) => false
       case _ => true
  }

  function Finish(result: seq<Expression>, ops: seq<Operator>, index: nat): Outcome {
    match Pop(result, ops, Never)
    case Underflow => Undefined
    case Stacks(r, _) => if |r| != 1 then Failed("Invalid expression") else Parsed(r[0], index)
  }

  /** What the main loop makes of the tokens from an index on, with given stacks. */
  function ParseFrom(tokens: seq<Token>, i: nat, result: seq<Expression>, ops: seq<Operator>, endToken: string): Outcome
    decreases |tokens| - i
  {
    if i >= |tokens| then Failed("Unexpected end of statement")
    else if !IsContinued(tokens[i], endToken) then Finish(result, ops, i)
    else match tokens[i]
      case Identifier(name) =>
        if i + 1 >= |tokens| then Failed("Unexpected end of statement")
        else if tokens[i+1].data == "." then
          if i + 2 >= |tokens| then Failed("Unexpected end of statement")
          else ParseFrom(tokens, i + 3, result + [Attribute(name, tokens[i+2].data)], ops, endToken)
        else ParseFrom(tokens, i + 1, result + [Attribute("", name)], ops, endToken)
      case Punctuation(c) =>
        if c == "(" then ParseFrom(tokens, i + 1, result, ops + [OPEN], endToken)
        else (match Pop(result, ops, AtParenthesis)
          case Underflow => Undefined
          case Stacks(r, o) =>
            if o == [] then Failed("Invalid expression") else ParseFrom(tokens, i + 1, r, o[..|o|-1], endToken))
      case Operators(op, _) =>
        if op == NOT then
          if i + 1 >= |tokens| then Failed("Unexpected end of statement")
          else ParseFrom(tokens, i + 1, result, ops + [NOT], endToken)
        else (match Pop(result, ops, Looser(Priority(op)))
          case Underflow => Undefined
          case Stacks(r, o) => ParseFrom(tokens, i + 1, r, o + [op], endToken))
      case _ => ParseFrom(tokens, i + 1, result + [Value(tokens[i])], ops, endToken)
  }

  // ------------------------------------------------------------- writing expressions

  /** An expression as it is written: Group is a pair of parentheses. */
  datatype Syntax =
    | Name(table: string, attribute: string)
    | Literal(token: Token)
    | Not(operand: Syntax)
    | Infix(op: Operator, lhs: Syntax, rhs: Syntax)
    | Group(inner: Syntax)

  function OperatorText(op: Operator): string {
    match op
    case MUL => "*" case DIV => "/" case MOD => "%"
    case ADD => "+" case SUB => "-"
    case EQ => "=" case NE => "<>" case GT => ">" case GE => ">=" case LT => "<" case LE => "<="
    case NOT => "not" case AND => "and" case OR => "or"
    case OPEN => "("
    case OTHER => "^"
  }

  function OperatorToken(op: Operator): Token {
    Operators(op, OperatorText(op))
  }

  /** How tightly the outermost construct binds. */
  function Binding(s: Syntax): nat {
    match s
    case Infix(op, _, _) => Priority(op)
    case Not(_) => Priority(NOT)
    case _ => 6
  }

  /** Every operand that binds too loosely stands in parentheses; operators of equal priority group to the left. */
  predicate WellFormed(s: Syntax) {
    match s
    case Name(table, attribute) => true
    case Literal(t) => t.Number? || t.Text?
    case Not(a) => WellFormed(a) && Binding(a) >= Priority(NOT)
    case Infix(op, l, r) =>
      IsBinary(op) && WellFormed(l) && WellFormed(r) && Binding(l) >= Priority(op) && Binding(r) > Priority(op)
    case Group(a) => WellFormed(a)
  }

  function Tokens(s: Syntax): (r: seq<Token>)
    ensures |r| > 0
  {
    match s
    case Name(table, attribute) =>
      if table == "" then [Identifier(attribute)]
      else [Identifier(table), Operators(OTHER, "."), Identifier(attribute)]
    case Literal(t) => [t]
    case Not(a) => [OperatorToken(NOT)] + Tokens(a)
    case Infix(op, l, r) => Tokens(l) + [OperatorToken(op)] + Tokens(r)
    case Group(a) => [Punctuation("(")] + Tokens(a) + [Punctuation(")")]
  }

  function Tree(s: Syntax): Expression {
    match s
    case Name(table, attribute) => Attribute(table, attribute)
    case Literal(t) => Value(t)
    case Not(a) => Unary(Tree(a))
    case Infix(op, l, r) => Binary(op, Tree(l), Tree(r))
    case Group(a) => Tree(a)
  }

  /** No token at which the loop looks is the end token. */
  predicate EndFree(s: Syntax, endToken: string) {
    match s
    case Name(table, attribute) => (if table == "" then attribute else table) != endToken
    case Literal(t) => t.data != endToken
    case Not(a) => OperatorText(NOT) != endToken && EndFree(a, endToken)
    case Infix(op, l, r) => EndFree(l, endToken) && OperatorText(op) != endToken && EndFree(r, endToken)
    case Group(a) => "(" != endToken && EndFree(a, endToken) && ")" != endToken
  }

  /** The expressions that the tokenizer and the parser can build. */
  predicate Expressible(e: Expression) {
    match e
    case Attribute(_, _) => true
    case Value(t) => t.Number? || t.Text?
    case Unary(a) => Expressible(a)
    case Binary(op, l, r) => IsBinary(op) && Expressible(l) && Expressible(r)
  }

  function GroupIf(loose: bool, s: Syntax): Syntax {
    if loose then Group(s) else s
  }

  /** An expression with only the parentheses that priorities and left associativity require. */
  function Minimal(e: Expression): (s: Syntax) {
    match e
    case Attribute(table, attribute) => Name(table, attribute)
    case Value(t) => Literal(t)
    case Unary(a) => var s := Minimal(a); Not(GroupIf(Binding(s) < Priority(NOT), s))
    case Binary(op, l, r) =>
      var s, t := Minimal(l), Minimal(r);
      Infix(op, GroupIf(Binding(s) < Priority(op), s), GroupIf(Binding(t) <= Priority(op), t))
  }

  lemma {:induction false} MinimalIsWellFormed(e: Expression)
    requires Expressible(e)
    ensures WellFormed(Minimal(e)) && Tree(Minimal(e)) == e
    decreases e
  {
    match e
    case Attribute(_, _) =>
    case Value(_) =>
    case Unary(a) => MinimalIsWellFormed(a);
    case Binary(op, l, r) =>
      MinimalIsWellFormed(l);
      MinimalIsWellFormed(r);
  }

  // ------------------------------------------------------------- the grammar, level by level

  /** A column, a number, a string, or any expression in parentheses. */
  predicate IsPrimary(s: Syntax)
    decreases s, 0
  {
    s.Name? || (s.Literal? && (s.token.Number? || s.token.Text?)) || (s.Group? && IsCondition(s.inner))
  }

  /** Primaries joined by *, / and %, from left to right. */
  predicate IsProduct(s: Syntax)
    decreases s, 1
  {
    IsPrimary(s) || (s.Infix? && s.op in {MUL, DIV, MOD} && IsProduct(s.lhs) && IsPrimary(s.rhs))
  }

  /** Products joined by + and -. */
  predicate IsSum(s: Syntax)
    decreases s, 2
  {
    IsProduct(s) || (s.Infix? && s.op in {ADD, SUB} && IsSum(s.lhs) && IsProduct(s.rhs))
  }

  /** Sums joined by comparisons. */
  predicate IsComparison(s: Syntax)
    decreases s, 3
  {
    IsSum(s) || (s.Infix? && s.op in {EQ, NE, GT, GE, LT, LE} && IsComparison(s.lhs) && IsSum(s.rhs))
  }

  /** Comparisons behind any number of NOTs. */
  predicate IsNegation(s: Syntax)
    decreases s, 4
  {
    IsComparison(s) || (s.Not? && IsNegation(s.operand))
  }

  /** Negations joined by AND and OR, which bind alike. */
  predicate IsCondition(s: Syntax)
    decreases s, 5
  {
    IsNegation(s) || (s.Infix? && s.op in {AND, OR} && IsCondition(s.lhs) && IsNegation(s.rhs))
  }

  lemma {:induction false} GrammarLevels(s: Syntax)
    ensures IsPrimary(s) <==> WellFormed(s) && Binding(s) > Priority(MUL)
    ensures IsProduct(s) <==> WellFormed(s) && Binding(s) > Priority(ADD)
    ensures IsSum(s) <==> WellFormed(s) && Binding(s) > Priority(EQ)
    ensures IsComparison(s) <==> WellFormed(s) && Binding(s) > Priority(NOT)
    ensures IsNegation(s) <==> WellFormed(s) && Binding(s) > Priority(AND)
    ensures IsCondition(s) <==> WellFormed(s)
    decreases s
  {
    match s
    case Name(_, _) =>
    case Literal(_) =>
    case Not(a) => GrammarLevels(a);
    case Infix(_, l, r) =>
      GrammarLevels(l);
      GrammarLevels(r);
    case Group(a) => GrammarLevels(a);
  }

  /** No parenthesis of the minimal writing can be left out: an operand stands in parentheses exactly if the grammar does not
      allow it there without. */
  lemma ParenthesesNeeded(op: Operator, l: Expression, r: Expression, p: Syntax)
    requires Expressible(Binary(op, l, r)) && IsPrimary(p)
    ensures Minimal(Binary(op, l, r)).lhs == if IsCondition(Infix(op, Minimal(l), p)) then Minimal(l) else Group(Minimal(l))
    ensures Minimal(Binary(op, l, r)).rhs == if IsCondition(Infix(op, p, Minimal(r))) then Minimal(r) else Group(Minimal(r))
    ensures Minimal(Unary(l)).operand == if IsCondition(Not(Minimal(l))) then Minimal(l) else Group(Minimal(l))
  {
    hide IsPrimary, IsCondition;
    MinimalIsWellFormed(l);
    MinimalIsWellFormed(r);
    GrammarLevels(p);
    GrammarLevels(Infix(op, Minimal(l), p));
    GrammarLevels(Infix(op, p, Minimal(r)));
    GrammarLevels(Not(Minimal(l)));
  }

  /** The writings with the necessary parentheses are those of the grammar. */
  lemma GrammarIff(s: Syntax)
    ensures WellFormed(s) <==> IsCondition(s)
  {
    GrammarLevels(s);
  }

  // ------------------------------------------------------------- what reading an expression leaves on the stacks

  /** Operands that wait, the newest last. */
  function WaitingOperands(s: Syntax): (r: seq<Expression>)
    ensures |r| > 0
  {
    match s
    case Not(a) => WaitingOperands(a)
    case Infix(_, l, r) => [Tree(l)] + WaitingOperands(r)
    case _ => [Tree(s)]
  }

  function WaitingOperators(s: Syntax): seq<Operator> {
    match s
    case Not(a) => [NOT] + WaitingOperators(a)
    case Infix(op, _, r) => [op] + WaitingOperators(r)
    case _ => []
  }

  lemma {:induction false} WaitingBind(s: Syntax)
    requires WellFormed(s)
    ensures forall i | 0 <= i < |WaitingOperators(s)| ::
      Priority(WaitingOperators(s)[i]) >= Binding(s) && WaitingOperators(s)[i] != OPEN && Priority(WaitingOperators(s)[i]) > 0
  {
    match s
    case Not(a) => WaitingBind(a);
    case Infix(op, l, r) => WaitingBind(r);
    case _ =>
  }

  /** The operators that wait behind others are executed first, and leave the tree of their expression. */
  lemma {:induction false} PopWaiting(below: seq<Expression>, s: Syntax, under: seq<Operator>, stop: Stop)
    requires WellFormed(s) && (stop.Looser? ==> stop.priority <= Binding(s))
    ensures Pop(below + WaitingOperands(s), under + WaitingOperators(s), stop) == Pop(below + [Tree(s)], under, stop)
    decreases s
  {
    hide Pop;
    match s
    case Not(a) =>
      PopWaiting(below, a, under + [NOT], stop);
      assert under + WaitingOperators(s) == (under + [NOT]) + WaitingOperators(a);
      PopUnary(below, Tree(a), under, stop);
    case Infix(op, l, r) =>
      PopWaiting(below + [Tree(l)], r, under + [op], stop);
      assert below + WaitingOperands(s) == (below + [Tree(l)]) + WaitingOperands(r);
      assert under + WaitingOperators(s) == (under + [op]) + WaitingOperators(r);
      PopBinary(below, op, Tree(l), Tree(r), under, stop);
    case _ =>
      assert under + [] == under;
  }

  lemma PopUnary(below: seq<Expression>, a: Expression, under: seq<Operator>, stop: Stop)
    requires !StopsAt(stop, NOT)
    ensures Pop(below + [a], under + [NOT], stop) == Pop(below + [Unary(a)], under, stop)
  {
    assert (below + [a])[..|below|] == below;
    assert (under + [NOT])[..|under|] == under;
  }

  lemma PopBinary(below: seq<Expression>, op: Operator, a: Expression, b: Expression, under: seq<Operator>, stop: Stop)
    requires IsBinary(op) && !StopsAt(stop, op)
    ensures Pop(below + [a] + [b], under + [op], stop) == Pop(below + [Binary(op, a, b)], under, stop)
  {
    assert (below + [a] + [b])[..|below|] == below;
    assert (under + [op])[..|under|] == under;
  }

  // ------------------------------------------------------------- reading an expression

  /** The tokens of s stand at position i, and a token other than "." follows them. */
  ghost predicate StandsAt(tokens: seq<Token>, i: nat, s: Syntax) {
    && i + |Tokens(s)| < |tokens|
    && tokens[i..i+|Tokens(s)|] == Tokens(s)
    && tokens[i+|Tokens(s)|].data != "."
  }

  /** An infix expression may follow the operators on the stack. */
  predicate MayFollow(ops: seq<Operator>, s: Syntax) {
    s.Infix? ==> ops == [] || Priority(ops[|ops|-1]) < Binding(s)
  }

  lemma Slices(tokens: seq<Token>, i: nat, a: seq<Token>, b: seq<Token>, c: seq<Token>)
    requires i + |a| + |b| + |c| <= |tokens| && tokens[i..i+|a|+|b|+|c|] == a + b + c
    ensures tokens[i..i+|a|] == a
    ensures tokens[i+|a|..i+|a|+|b|] == b
    ensures tokens[i+|a|+|b|..i+|a|+|b|+|c|] == c
  {
    var ts := tokens[i..i+|a|+|b|+|c|];
    assert ts[..|a|] == a && ts[|a|..|a|+|b|] == b && ts[|a|+|b|..] == c;
    SubSlice(tokens, i, i + |ts|, 0, |a|);
    SubSlice(tokens, i, i + |ts|, |a|, |a| + |b|);
    SubSlice(tokens, i, i + |ts|, |a| + |b|, |ts|);
  }

  lemma TokensOf(s: Syntax)
    ensures s.Not? ==> Tokens(s) == [OperatorToken(NOT)] + Tokens(s.operand)
    ensures s.Infix? ==> Tokens(s) == Tokens(s.lhs) + [OperatorToken(s.op)] + Tokens(s.rhs)
    ensures s.Group? ==> Tokens(s) == [Punctuation("(")] + Tokens(s.inner) + [Punctuation(")")]
  {
  }

  lemma NotStands(tokens: seq<Token>, i: nat, a: Syntax)
    requires StandsAt(tokens, i, Not(a))
    ensures tokens[i] == OperatorToken(NOT) && StandsAt(tokens, i + 1, a)
    ensures |Tokens(Not(a))| == 1 + |Tokens(a)|
  {
    hide Tokens;
    TokensOf(Not(a));
    assert [OperatorToken(NOT)] + Tokens(a) == [OperatorToken(NOT)] + Tokens(a) + [];
    Slices(tokens, i, [OperatorToken(NOT)], Tokens(a), []);
    assert tokens[i..i+1][0] == tokens[i];
  }

  lemma InfixStands(tokens: seq<Token>, i: nat, op: Operator, l: Syntax, r: Syntax)
    requires StandsAt(tokens, i, Infix(op, l, r)) && IsBinary(op)
    ensures StandsAt(tokens, i, l)
    ensures tokens[i+|Tokens(l)|] == OperatorToken(op)
    ensures StandsAt(tokens, i + |Tokens(l)| + 1, r)
    ensures |Tokens(Infix(op, l, r))| == |Tokens(l)| + 1 + |Tokens(r)|
  {
    hide Tokens;
    TokensOf(Infix(op, l, r));
    Slices(tokens, i, Tokens(l), [OperatorToken(op)], Tokens(r));
    assert tokens[i+|Tokens(l)|..i+|Tokens(l)|+1][0] == tokens[i+|Tokens(l)|];
  }

  lemma GroupStands(tokens: seq<Token>, i: nat, a: Syntax)
    requires StandsAt(tokens, i, Group(a))
    ensures tokens[i] == Punctuation("(") && StandsAt(tokens, i + 1, a)
    ensures tokens[i+1+|Tokens(a)|] == Punctuation(")")
    ensures |Tokens(Group(a))| == |Tokens(a)| + 2
  {
    hide Tokens;
    TokensOf(Group(a));
    Slices(tokens, i, [Punctuation("(")], Tokens(a), [Punctuation(")")]);
    assert tokens[i..i+1][0] == tokens[i];
    assert tokens[i+1+|Tokens(a)|..i+2+|Tokens(a)|][0] == tokens[i+1+|Tokens(a)|];
  }

  lemma ReadsName(tokens: seq<Token>, i: nat, s: Syntax, result: seq<Expression>, ops: seq<Operator>, endToken: string)
    requires (s.Name? || s.Literal?) && WellFormed(s) && StandsAt(tokens, i, s) && EndFree(s, endToken)
    ensures ReadsAs(tokens, i, s, result, ops, endToken)
  {
    hide ParseFrom;
    assert ops + [] == ops;
    assert tokens[i] == tokens[i..i+|Tokens(s)|][0] == Tokens(s)[0];
    if s.Literal? {
      ReadsLiteral(tokens, i, result, ops, endToken);
    } else if s.table == "" {
      ReadsColumn(tokens, i, s.attribute, result, ops, endToken);
    } else {
      assert tokens[i+1] == tokens[i..i+|Tokens(s)|][1] == Tokens(s)[1];
      assert tokens[i+2] == tokens[i..i+|Tokens(s)|][2] == Tokens(s)[2];
      ReadsTableColumn(tokens, i, s.table, s.attribute, result, ops, endToken);
    }
  }

  lemma ReadsLiteral(tokens: seq<Token>, i: nat, result: seq<Expression>, ops: seq<Operator>, endToken: string)
    requires i < |tokens| && (tokens[i].Number? || tokens[i].Text?) && tokens[i].data != endToken
    ensures ParseFrom(tokens, i, result, ops, endToken) == ParseFrom(tokens, i + 1, result + [Value(tokens[i])], ops, endToken)
  {
  }

  lemma ReadsColumn(tokens: seq<Token>, i: nat, name: string, result: seq<Expression>, ops: seq<Operator>, endToken: string)
    requires i + 1 < |tokens| && tokens[i] == Identifier(name) && tokens[i+1].data != "." && name != endToken
    ensures ParseFrom(tokens, i, result, ops, endToken) == ParseFrom(tokens, i + 1, result + [Attribute("", name)], ops, endToken)
  {
  }

  lemma ReadsTableColumn(tokens: seq<Token>, i: nat, table: string, name: string, result: seq<Expression>, ops: seq<Operator>,
      endToken: string)
    requires i + 2 < |tokens| && tokens[i] == Identifier(table) && tokens[i+1].data == "." && tokens[i+2].data == name
    requires table != endToken
    ensures ParseFrom(tokens, i, result, ops, endToken) == ParseFrom(tokens, i + 3, result + [Attribute(table, name)], ops, endToken)
  {
  }

  lemma ReadsPrefix(tokens: seq<Token>, i: nat, result: seq<Expression>, ops: seq<Operator>, endToken: string)
    requires i + 1 < |tokens| && tokens[i].data != endToken
    ensures tokens[i] == OperatorToken(NOT) ==>
      ParseFrom(tokens, i, result, ops, endToken) == ParseFrom(tokens, i + 1, result, ops + [NOT], endToken)
    ensures tokens[i] == Punctuation("(") ==>
      ParseFrom(tokens, i, result, ops, endToken) == ParseFrom(tokens, i + 1, result, ops + [OPEN], endToken)
  {
  }

  /** Reading s leaves its operands and operators on the stacks. */
  ghost predicate ReadsAs(tokens: seq<Token>, i: nat, s: Syntax, result: seq<Expression>, ops: seq<Operator>, endToken: string) {
    ParseFrom(tokens, i, result, ops, endToken)
      == ParseFrom(tokens, i + |Tokens(s)|, result + WaitingOperands(s), ops + WaitingOperators(s), endToken)
  }

  /** The operands of an expression may stand where they do. */
  lemma Operands(s: Syntax, ops: seq<Operator>, endToken: string)
    requires WellFormed(s) && MayFollow(ops, s) && EndFree(s, endToken)
    ensures s.Not? ==> WellFormed(s.operand) && MayFollow(ops + [NOT], s.operand) && EndFree(s.operand, endToken)
    ensures s.Infix? ==>
      && IsBinary(s.op) && WellFormed(s.lhs) && MayFollow(ops, s.lhs) && EndFree(s.lhs, endToken)
      && WellFormed(s.rhs) && MayFollow(ops + [s.op], s.rhs) && EndFree(s.rhs, endToken)
    ensures s.Group? ==> WellFormed(s.inner) && MayFollow(ops + [OPEN], s.inner) && EndFree(s.inner, endToken)
  {
  }

  lemma {:induction false} Reads(tokens: seq<Token>, i: nat, s: Syntax, result: seq<Expression>, ops: seq<Operator>, endToken: string)
    requires WellFormed(s) && StandsAt(tokens, i, s) && MayFollow(ops, s)
    requires EndFree(s, endToken)
    ensures ReadsAs(tokens, i, s, result, ops, endToken)
    decreases s
  {
    hide ParseFrom, StandsAt, ReadsAs, WellFormed, MayFollow, EndFree, Tokens;
    Operands(s, ops, endToken);
    match s
    case Not(a) =>
      NotStands(tokens, i, a);
      Reads(tokens, i + 1, a, result, ops + [NOT], endToken);
      ReadsNot(tokens, i, a, result, ops, endToken);
    case Infix(op, l, r) =>
      InfixStands(tokens, i, op, l, r);
      Reads(tokens, i, l, result, ops, endToken);
      Reads(tokens, i + |Tokens(l)| + 1, r, result + [Tree(l)], ops + [op], endToken);
      ReadsInfix(tokens, i, op, l, r, result, ops, endToken);
    case Group(a) =>
      GroupStands(tokens, i, a);
      Reads(tokens, i + 1, a, result, ops + [OPEN], endToken);
      ReadsGroup(tokens, i, a, result, ops, endToken);
    case _ =>
      ReadsName(tokens, i, s, result, ops, endToken);
  }

  lemma ReadsNot(tokens: seq<Token>, i: nat, a: Syntax, result: seq<Expression>, ops: seq<Operator>, endToken: string)
    requires StandsAt(tokens, i, Not(a)) && EndFree(Not(a), endToken)
    requires ReadsAs(tokens, i + 1, a, result, ops + [NOT], endToken)
    ensures ReadsAs(tokens, i, Not(a), result, ops, endToken)
  {
    hide ParseFrom, StandsAt;
    NotStands(tokens, i, a);
    StandsInside(tokens, i + 1, a);
    ReadsPrefix(tokens, i, result, ops, endToken);
    assert ops + WaitingOperators(Not(a)) == (ops + [NOT]) + WaitingOperators(a);
  }

  lemma ReadsInfix(tokens: seq<Token>, i: nat, op: Operator, l: Syntax, r: Syntax, result: seq<Expression>, ops: seq<Operator>, endToken: string)
    requires var s := Infix(op, l, r); WellFormed(s) && StandsAt(tokens, i, s) && EndFree(s, endToken) && MayFollow(ops, s)
    requires ReadsAs(tokens, i, l, result, ops, endToken)
    requires ReadsAs(tokens, i + |Tokens(l)| + 1, r, result + [Tree(l)], ops + [op], endToken)
    ensures ReadsAs(tokens, i, Infix(op, l, r), result, ops, endToken)
  {
    hide ParseFrom, StandsAt, Tokens, WaitingOperands, WaitingOperators;
    InfixStands(tokens, i, op, l, r);
    StandsInside(tokens, i, l);
    ReadsOperator(tokens, i + |Tokens(l)|, op, l, result, ops, endToken);
    WaitingInfix(op, l, r, result, ops);
  }

  lemma WaitingInfix(op: Operator, l: Syntax, r: Syntax, result: seq<Expression>, ops: seq<Operator>)
    ensures result + WaitingOperands(Infix(op, l, r)) == (result + [Tree(l)]) + WaitingOperands(r)
    ensures ops + WaitingOperators(Infix(op, l, r)) == (ops + [op]) + WaitingOperators(r)
  {
  }

  lemma ReadsGroup(tokens: seq<Token>, i: nat, a: Syntax, result: seq<Expression>, ops: seq<Operator>, endToken: string)
    requires WellFormed(a) && StandsAt(tokens, i, Group(a)) && EndFree(Group(a), endToken)
    requires ReadsAs(tokens, i + 1, a, result, ops + [OPEN], endToken)
    ensures ReadsAs(tokens, i, Group(a), result, ops, endToken)
  {
    hide ParseFrom, StandsAt;
    GroupStands(tokens, i, a);
    StandsInside(tokens, i + 1, a);
    ReadsPrefix(tokens, i, result, ops, endToken);
    ReadsClosing(tokens, i + 1 + |Tokens(a)|, a, result, ops, endToken);
    assert ops + [] == ops;
  }

  lemma StandsInside(tokens: seq<Token>, i: nat, s: Syntax)
    requires StandsAt(tokens, i, s)
    ensures i + |Tokens(s)| < |tokens|
    ensures tokens[i] == Tokens(s)[0]
  {
    assert tokens[i] == tokens[i..i+|Tokens(s)|][0];
  }

  /** An operator executes what waits of its left operand, and nothing below. */
  lemma ReadsOperator(tokens: seq<Token>, i: nat, op: Operator, l: Syntax, result: seq<Expression>, ops: seq<Operator>, endToken: string)
    requires WellFormed(l) && IsBinary(op) && Binding(l) >= Priority(op)
    requires ops == [] || Priority(ops[|ops|-1]) < Priority(op)
    requires i < |tokens| && tokens[i] == OperatorToken(op) && OperatorText(op) != endToken
    ensures ParseFrom(tokens, i, result + WaitingOperands(l), ops + WaitingOperators(l), endToken)
         == ParseFrom(tokens, i + 1, result + [Tree(l)], ops + [op], endToken)
  {
    PopWaiting(result, l, ops, Looser(Priority(op)));
  }

  /** A closing parenthesis executes what waits behind the opening one. */
  lemma ReadsClosing(tokens: seq<Token>, i: nat, a: Syntax, result: seq<Expression>, ops: seq<Operator>, endToken: string)
    requires WellFormed(a)
    requires i < |tokens| && tokens[i] == Punctuation(")") && ")" != endToken
    ensures ParseFrom(tokens, i, result + WaitingOperands(a), (ops + [OPEN]) + WaitingOperators(a), endToken)
         == ParseFrom(tokens, i + 1, result + [Tree(a)], ops, endToken)
  {
    PopWaiting(result, a, ops + [OPEN], AtParenthesis);
    assert (ops + [OPEN])[..|ops|] == ops;
  }

  /** If one of the tokens at which the loop looks is the end token, it stops there, inside s. */
  lemma {:induction false} StopsInside(tokens: seq<Token>, i: nat, s: Syntax, result: seq<Expression>, ops: seq<Operator>, endToken: string)
    returns (j: nat, r: seq<Expression>, o: seq<Operator>)
    requires WellFormed(s) && StandsAt(tokens, i, s) && MayFollow(ops, s)
    requires !EndFree(s, endToken)
    ensures i <= j < i + |Tokens(s)|
    ensures ParseFrom(tokens, i, result, ops, endToken) == Finish(r, o, j)
    decreases s
  {
    hide ParseFrom, StandsAt, ReadsAs, Tokens, WaitingOperands, WaitingOperators, Tree, Finish;
    FirstToken(s);
    StandsInside(tokens, i, s);
    if tokens[i].data == endToken {
      StopsHere(tokens, i, result, ops, endToken);
      return i, result, ops;
    }
    match s
    case Not(a) =>
      NotStands(tokens, i, a);
      StandsInside(tokens, i + 1, a);
      ReadsPrefix(tokens, i, result, ops, endToken);
      j, r, o := StopsInside(tokens, i + 1, a, result, ops + [NOT], endToken);
    case Infix(op, l, rhs) =>
      InfixStands(tokens, i, op, l, rhs);
      if !EndFree(l, endToken) {
        j, r, o := StopsInside(tokens, i, l, result, ops, endToken);
      } else {
        Reads(tokens, i, l, result, ops, endToken);
        var m := BehindOperand(tokens, i, op, l, rhs, result, ops, endToken);
        if OperatorText(op) == endToken {
          return m, result + WaitingOperands(l), ops + WaitingOperators(l);
        }
        j, r, o := StopsInside(tokens, m + 1, rhs, result + [Tree(l)], ops + [op], endToken);
      }
    case Group(a) =>
      GroupStands(tokens, i, a);
      StandsInside(tokens, i + 1, a);
      ReadsPrefix(tokens, i, result, ops, endToken);
      if !EndFree(a, endToken) {
        j, r, o := StopsInside(tokens, i + 1, a, result, ops + [OPEN], endToken);
      } else {
        Reads(tokens, i + 1, a, result, ops + [OPEN], endToken);
        j := BehindGroup(tokens, i, a, result, ops, endToken);
        return j, result + WaitingOperands(a), ops + [OPEN] + WaitingOperators(a);
      }
    case _ =>
  }

  lemma FirstToken(s: Syntax)
    ensures s.Not? ==> Tokens(s)[0] == OperatorToken(NOT)
    ensures s.Group? ==> Tokens(s)[0] == Punctuation("(")
    ensures s.Name? ==> Tokens(s)[0].data == if s.table == "" then s.attribute else s.table
    ensures s.Literal? ==> Tokens(s)[0] == s.token
  {
  }

  lemma BehindOperand(tokens: seq<Token>, i: nat, op: Operator, l: Syntax, r: Syntax, result: seq<Expression>, ops: seq<Operator>, endToken: string)
    returns (m: nat)
    requires var s := Infix(op, l, r); WellFormed(s) && StandsAt(tokens, i, s) && MayFollow(ops, s)
    requires ReadsAs(tokens, i, l, result, ops, endToken)
    ensures m == i + |Tokens(l)|
    ensures ParseFrom(tokens, i, result, ops, endToken) ==
      if OperatorText(op) == endToken then Finish(result + WaitingOperands(l), ops + WaitingOperators(l), m)
      else ParseFrom(tokens, m + 1, result + [Tree(l)], ops + [op], endToken)
  {
    hide ParseFrom, StandsAt;
    m := i + |Tokens(l)|;
    InfixStands(tokens, i, op, l, r);
    StandsInside(tokens, i, l);
    if OperatorText(op) == endToken {
      StopsHere(tokens, m, result + WaitingOperands(l), ops + WaitingOperators(l), endToken);
    } else {
      ReadsOperator(tokens, m, op, l, result, ops, endToken);
    }
  }

  lemma BehindGroup(tokens: seq<Token>, i: nat, a: Syntax, result: seq<Expression>, ops: seq<Operator>, endToken: string)
    returns (m: nat)
    requires StandsAt(tokens, i, Group(a)) && endToken == ")"
    requires ReadsAs(tokens, i + 1, a, result, ops + [OPEN], endToken)
    ensures m == i + 1 + |Tokens(a)|
    ensures ParseFrom(tokens, i + 1, result, ops + [OPEN], endToken)
         == Finish(result + WaitingOperands(a), ops + [OPEN] + WaitingOperators(a), m)
  {
    hide ParseFrom, StandsAt;
    GroupStands(tokens, i, a);
    StandsInside(tokens, i + 1, a);
    m := i + 1 + |Tokens(a)|;
    StopsHere(tokens, m, result + WaitingOperands(a), ops + [OPEN] + WaitingOperators(a), endToken);
  }

  lemma StopsHere(tokens: seq<Token>, i: nat, result: seq<Expression>, ops: seq<Operator>, endToken: string)
    requires i < |tokens| && !IsContinued(tokens[i], endToken)
    ensures ParseFrom(tokens, i, result, ops, endToken) == Finish(result, ops, i)
  {
  }

  /** A token that cannot continue an expression: the end token, a keyword, or punctuation other than parentheses. */
  predicate Ends(t: Token, endToken: string) {
    t.data == endToken || t.Keyword? || (t.Punctuation? && t.data != "(" && t.data != ")")
  }

  /** Parsing inverts writing. An expression of the grammar, followed by a token that cannot continue it, is read back
      as its tree, up to exactly that token, if and only if none of the tokens at which the loop looks has the text of
      the end token. */
  lemma ParseInvertsWriting(tokens: seq<Token>, i: nat, s: Syntax, endToken: string)
    requires IsCondition(s) && StandsAt(tokens, i, s)
    requires Ends(tokens[i+|Tokens(s)|], endToken)
    ensures ParseFrom(tokens, i, [], [], endToken) == Parsed(Tree(s), i + |Tokens(s)|) <==> EndFree(s, endToken)
  {
    hide ParseFrom, StandsAt, Tokens, Pop, IsCondition, EndFree;
    GrammarIff(s);
    if EndFree(s, endToken) {
      Reads(tokens, i, s, [], [], endToken);
      StandsInside(tokens, i, s);
      StopsHere(tokens, i + |Tokens(s)|, [] + WaitingOperands(s), [] + WaitingOperators(s), endToken);
      FinishesWith(s, i + |Tokens(s)|);
    } else {
      var j, r, o := StopsInside(tokens, i, s, [], [], endToken);
      FinishIndex(r, o, j);
    }
  }

  lemma FinishesWith(s: Syntax, index: nat)
    requires WellFormed(s)
    ensures Finish([] + WaitingOperands(s), [] + WaitingOperators(s), index) == Parsed(Tree(s), index)
  {
    PopWaiting([], s, [], Never);
  }

  lemma FinishIndex(result: seq<Expression>, ops: seq<Operator>, index: nat)
    ensures Finish(result, ops, index).Parsed? ==> Finish(result, ops, index).index == index
  {
  }

  /** In particular for the writing with the fewest parentheses. */
  lemma ParseInvertsPrinting(tokens: seq<Token>, i: nat, e: Expression, endToken: string)
    requires Expressible(e) && StandsAt(tokens, i, Minimal(e))
    requires Ends(tokens[i+|Tokens(Minimal(e))|], endToken) && EndFree(Minimal(e), endToken)
    ensures ParseFrom(tokens, i, [], [], endToken) == Parsed(e, i + |Tokens(Minimal(e))|)
  {
    MinimalIsWellFormed(e);
    GrammarIff(Minimal(e));
    ParseInvertsWriting(tokens, i, Minimal(e), endToken);
  }

  /** op2 is of a tighter level of the grammar than op1. */
  predicate Tighter(op2: Operator, op1: Operator) {
    || (op2 in {MUL, DIV, MOD} && op1 in {ADD, SUB, EQ, NE, GT, GE, LT, LE, AND, OR})
    || (op2 in {ADD, SUB} && op1 in {EQ, NE, GT, GE, LT, LE, AND, OR})
    || (op2 in {EQ, NE, GT, GE, LT, LE} && op1 in {AND, OR})
  }

  lemma TwoLevels(a: Syntax, op1: Operator, b: Syntax, op2: Operator, c: Syntax)
    requires IsPrimary(a) && IsPrimary(b) && IsPrimary(c) && IsBinary(op1) && IsBinary(op2)
    ensures Tighter(op2, op1) ==> IsCondition(Infix(op1, a, Infix(op2, b, c)))
    ensures !Tighter(op2, op1) ==> IsCondition(Infix(op2, Infix(op1, a, b), c))
  {
    hide IsPrimary, IsCondition;
    GrammarLevels(a);
    GrammarLevels(b);
    GrammarLevels(c);
    GrammarIff(Infix(op1, a, Infix(op2, b, c)));
    GrammarIff(Infix(op2, Infix(op1, a, b), c));
  }

  lemma ReadsWhole(tokens: seq<Token>, s: Syntax, last: Token, endToken: string)
    requires IsCondition(s) && EndFree(s, endToken) && tokens == Tokens(s) + [last]
    requires Ends(last, endToken) && last.data != "."
    ensures ParseFrom(tokens, 0, [], [], endToken) == Parsed(Tree(s), |tokens| - 1)
  {
    hide ParseFrom, IsCondition, EndFree, Tokens, Tree;
    assert tokens[0..0+|Tokens(s)|] == Tokens(s);
    ParseInvertsWriting(tokens, 0, s, endToken);
  }

  /** a op1 b op2 c, for any operands: op2 takes b if it is of a tighter level than op1, and op1 takes it otherwise. */
  lemma ThreeOperands(a: Syntax, op1: Operator, b: Syntax, op2: Operator, c: Syntax, last: Token, endToken: string)
    requires IsPrimary(a) && IsPrimary(b) && IsPrimary(c)
    requires EndFree(a, endToken) && EndFree(b, endToken) && EndFree(c, endToken)
    requires IsBinary(op1) && OperatorText(op1) != endToken && IsBinary(op2) && OperatorText(op2) != endToken
    requires Ends(last, endToken) && last.data != "."
    ensures var tokens := Tokens(a) + [OperatorToken(op1)] + Tokens(b) + [OperatorToken(op2)] + Tokens(c) + [last];
      ParseFrom(tokens, 0, [], [], endToken) == Parsed(
        if Tighter(op2, op1) then Binary(op1, Tree(a), Binary(op2, Tree(b), Tree(c)))
        else Binary(op2, Binary(op1, Tree(a), Tree(b)), Tree(c)),
        |tokens| - 1)
  {
    hide ParseFrom, IsPrimary, IsCondition, Tighter, OperatorText, Tokens, EndFree, Tree, Ends;
    TwoLevels(a, op1, b, op2, c);
    ThreeParts(a, op1, b, op2, c, endToken);
    var tokens := Tokens(a) + [OperatorToken(op1)] + Tokens(b) + [OperatorToken(op2)] + Tokens(c) + [last];
    ReadsWhole(tokens, if Tighter(op2, op1) then Infix(op1, a, Infix(op2, b, c)) else Infix(op2, Infix(op1, a, b), c), last, endToken);
  }

  lemma ThreeParts(a: Syntax, op1: Operator, b: Syntax, op2: Operator, c: Syntax, endToken: string)
    requires EndFree(a, endToken) && EndFree(b, endToken) && EndFree(c, endToken)
    requires OperatorText(op1) != endToken && OperatorText(op2) != endToken
    ensures var right, left := Infix(op1, a, Infix(op2, b, c)), Infix(op2, Infix(op1, a, b), c);
      && Tokens(right) == Tokens(left) == Tokens(a) + [OperatorToken(op1)] + Tokens(b) + [OperatorToken(op2)] + Tokens(c)
      && EndFree(right, endToken) && EndFree(left, endToken)
      && Tree(right) == Binary(op1, Tree(a), Binary(op2, Tree(b), Tree(c)))
      && Tree(left) == Binary(op2, Binary(op1, Tree(a), Tree(b)), Tree(c))
  {
    hide OperatorText, OperatorToken, Tokens;
    TokensOf(Infix(op2, b, c));
    TokensOf(Infix(op1, a, b));
    TokensOf(Infix(op1, a, Infix(op2, b, c)));
    TokensOf(Infix(op2, Infix(op1, a, b), c));
    Regrouped(Tokens(a) + [OperatorToken(op1)], Tokens(b), [OperatorToken(op2)], Tokens(c));
  }

  lemma Regrouped(a: seq<Token>, b: seq<Token>, c: seq<Token>, d: seq<Token>)
    ensures a + (b + c + d) == a + b + c + d
  {
  }

  /** NOT a op b: NOT takes a alone in front of AND and OR, and all of it in front of other operators. */
  lemma NotTwoOperands(a: Syntax, op: Operator, b: Syntax, last: Token, endToken: string)
    requires IsPrimary(a) && IsPrimary(b) && EndFree(a, endToken) && EndFree(b, endToken)
    requires IsBinary(op) && OperatorText(NOT) != endToken && OperatorText(op) != endToken
    requires Ends(last, endToken) && last.data != "."
    ensures var tokens := [OperatorToken(NOT)] + Tokens(a) + [OperatorToken(op)] + Tokens(b) + [last];
      ParseFrom(tokens, 0, [], [], endToken) == Parsed(
        if op in {AND, OR} then Binary(op, Unary(Tree(a)), Tree(b)) else Unary(Binary(op, Tree(a), Tree(b))),
        |tokens| - 1)
  {
    hide ParseFrom, IsPrimary, IsCondition, OperatorText;
    var tokens := [OperatorToken(NOT)] + Tokens(a) + [OperatorToken(op)] + Tokens(b) + [last];
    var s := if op in {AND, OR} then Infix(op, Not(a), b) else Not(Infix(op, a, b));
    GrammarLevels(a);
    GrammarLevels(b);
    GrammarIff(s);
    assert tokens == Tokens(s) + [last];
    ReadsWhole(tokens, s, last, endToken);
  }

  // ------------------------------------------------------------- what is no expression

  /** Tokens in front of s and behind it. */
  lemma StandsBetween(front: seq<Token>, s: Syntax, back: seq<Token>)
    requires back != [] && back[0].data != "."
    ensures StandsAt(front + Tokens(s) + back, |front|, s)
    ensures (front + Tokens(s) + back)[|front|+|Tokens(s)|] == back[0]
    ensures |back| > 1 ==> (front + Tokens(s) + back)[|front|+|Tokens(s)|+1] == back[1]
  {
    hide Tokens;
    var tokens := front + Tokens(s) + back;
    assert tokens[|front|..|front|+|Tokens(s)|] == Tokens(s);
  }

  /** Nothing at all is no expression. */
  lemma NothingFails(last: Token, endToken: string)
    requires Ends(last, endToken)
    ensures ParseFrom([last], 0, [], [], endToken) == Failed("Invalid expression")
  {
  }

  /** Nor is one with a closing parenthesis behind it that nothing opens. */
  lemma UnopenedFails(s: Syntax, rest: seq<Token>, endToken: string)
    requires IsCondition(s) && EndFree(s, endToken) && ")" != endToken
    ensures ParseFrom(Tokens(s) + [Punctuation(")")] + rest, 0, [], [], endToken) == Failed("Invalid expression")
  {
    hide ParseFrom, IsCondition, EndFree, Tokens, StandsAt;
    var tokens := Tokens(s) + [Punctuation(")")] + rest;
    StandsBetween([], s, [Punctuation(")")] + rest);
    assert [] + Tokens(s) + ([Punctuation(")")] + rest) == tokens;
    GrammarIff(s);
    Reads(tokens, 0, s, [], [], endToken);
    ClosesNothing(tokens, |Tokens(s)|, s, endToken);
  }

  lemma ClosesNothing(tokens: seq<Token>, i: nat, s: Syntax, endToken: string)
    requires WellFormed(s) && i < |tokens| && tokens[i] == Punctuation(")") && ")" != endToken
    ensures ParseFrom(tokens, i, [] + WaitingOperands(s), [] + WaitingOperators(s), endToken) == Failed("Invalid expression")
  {
    PopWaiting([], s, [], AtParenthesis);
  }

  /** Nor are two operands side by side. */
  lemma SideBySideFails(a: Syntax, b: Syntax, last: Token, endToken: string)
    requires IsPrimary(a) && IsPrimary(b) && EndFree(a, endToken) && EndFree(b, endToken)
    requires Tokens(b)[0].data != "." && Ends(last, endToken) && last.data != "."
    ensures ParseFrom(Tokens(a) + Tokens(b) + [last], 0, [], [], endToken) == Failed("Invalid expression")
  {
    hide ParseFrom, IsPrimary, EndFree, Tokens, StandsAt;
    var tokens := Tokens(a) + Tokens(b) + [last];
    var n := |Tokens(a)|;
    StandsBetween([], a, Tokens(b) + [last]);
    StandsBetween(Tokens(a), b, [last]);
    assert [] + Tokens(a) + (Tokens(b) + [last]) == tokens;
    GrammarLevels(a);
    GrammarLevels(b);
    PrimaryWaits(a);
    PrimaryWaits(b);
    Reads(tokens, 0, a, [], [], endToken);
    Reads(tokens, n, b, [Tree(a)], [], endToken);
    assert [] + [Tree(a)] == [Tree(a)] && [] + WaitingOperators(a) == [] && [] + WaitingOperators(b) == [];
    StopsHere(tokens, n + |Tokens(b)|, [Tree(a)] + [Tree(b)], [], endToken);
  }

  lemma PrimaryWaits(s: Syntax)
    requires IsPrimary(s)
    ensures WaitingOperands(s) == [Tree(s)] && WaitingOperators(s) == [] && !s.Infix?
  {
  }

  /** Behind a parenthesis that nothing closes, the source takes the top of an empty stack; and behind an operator that
      lacks its operands. */
  lemma MissingOperand(s: Syntax, op: Operator, last: Token, endToken: string)
    requires IsCondition(s) && EndFree(s, endToken) && Ends(last, endToken) && last.data != "."
    ensures "(" != endToken ==> ParseFrom([Punctuation("(")] + Tokens(s) + [last], 0, [], [], endToken) == Undefined
    ensures IsPrimary(s) && IsBinary(op) && OperatorText(op) != endToken ==>
      ParseFrom(Tokens(s) + [OperatorToken(op)] + [last], 0, [], [], endToken) == Undefined
  {
    hide ParseFrom, IsCondition, IsPrimary, EndFree, Tokens, Ends;
    GrammarIff(s);
    if "(" != endToken {
      Unclosed(s, last, endToken);
    }
    if IsPrimary(s) && IsBinary(op) && OperatorText(op) != endToken {
      NoRightOperand(s, op, last, endToken);
    }
  }

  lemma Unclosed(s: Syntax, last: Token, endToken: string)
    requires WellFormed(s) && EndFree(s, endToken) && Ends(last, endToken) && last.data != "." && "(" != endToken
    ensures ParseFrom([Punctuation("(")] + Tokens(s) + [last], 0, [], [], endToken) == Undefined
  {
    hide ParseFrom, EndFree, Tokens, StandsAt, Finish, WaitingOperands, WaitingOperators;
    var tokens := [Punctuation("(")] + Tokens(s) + [last];
    StandsBetween([Punctuation("(")], s, [last]);
    ReadsPrefix(tokens, 0, [], [], endToken);
    assert [] + [OPEN] == [OPEN];
    Reads(tokens, 1, s, [], [OPEN], endToken);
    StopsHere(tokens, 1 + |Tokens(s)|, [] + WaitingOperands(s), [OPEN] + WaitingOperators(s), endToken);
    FinishUnclosed(s, 1 + |Tokens(s)|);
  }

  lemma FinishUnclosed(s: Syntax, index: nat)
    requires WellFormed(s)
    ensures Finish([] + WaitingOperands(s), [OPEN] + WaitingOperators(s), index) == Undefined
  {
    PopWaiting([], s, [OPEN], Never);
  }

  lemma NoRightOperand(s: Syntax, op: Operator, last: Token, endToken: string)
    requires IsPrimary(s) && WellFormed(s) && EndFree(s, endToken) && IsBinary(op) && OperatorText(op) != endToken
    requires Ends(last, endToken)
    ensures ParseFrom(Tokens(s) + [OperatorToken(op)] + [last], 0, [], [], endToken) == Undefined
  {
    hide ParseFrom, EndFree, Tokens, StandsAt, IsPrimary;
    var tokens := Tokens(s) + [OperatorToken(op)] + [last];
    var n := |Tokens(s)|;
    StandsBetween([], s, [OperatorToken(op), last]);
    assert [] + Tokens(s) + [OperatorToken(op), last] == tokens;
    PrimaryWaits(s);
    Reads(tokens, 0, s, [], [], endToken);
    assert [] + [Tree(s)] == [Tree(s)] && [] + WaitingOperators(s) == [];
    OperatorWaits(tokens, n, Tree(s), op, endToken);
  }

  lemma OperatorWaits(tokens: seq<Token>, n: nat, e: Expression, op: Operator, endToken: string)
    requires IsBinary(op) && OperatorText(op) != endToken
    requires n + 1 < |tokens| && tokens[n] == OperatorToken(op) && Ends(tokens[n+1], endToken)
    ensures ParseFrom(tokens, n, [e], [], endToken) == Undefined
  {
    assert ParseFrom(tokens, n + 1, [e], [op], endToken) == Finish([e], [op], n + 1);
  }

  /** With the default end token "" the condition is not idle: an empty string literal ends the expression early. */
  lemma EmptyTextEndsParse()
    ensures var s := Infix(EQ, Name("", "name"), Literal(Text("")));
      && WellFormed(s)
      && ParseFrom(Tokens(s) + [Punctuation(";")], 0, [], [], "") == Undefined
  {
    var tokens := [Identifier("name"), OperatorToken(EQ), Text(""), Punctuation(";")];
    var s := Infix(EQ, Name("", "name"), Literal(Text("")));
    assert Tokens(s) + [Punctuation(";")] == tokens;
    var name := [Attribute("", "name")];
    assert ParseFrom(tokens, 2, name, [EQ], "") == Finish(name, [EQ], 2);
    assert ParseFrom(tokens, 1, name, [], "") == ParseFrom(tokens, 2, name, [EQ], "");
    assert [] + name == name;
    assert ParseFrom(tokens, 0, [], [], "") == ParseFrom(tokens, 1, name, [], "");
  }

  // ------------------------------------------------------------- the loop

  class ExpressionParser {
    const tokens: seq<Token>
    var index: nat

    constructor (tokens: seq<Token>)
      ensures this.tokens == tokens && index == 0
    {
      this.tokens, index := tokens, 0;
    }

    /** One of the three loops over the stacks. */
    method PopOperators(result: seq<Expression>, ops: seq<Operator>, stop: Stop) returns (r: Stacks)
      ensures r == Pop(result, ops, stop)
    {
      var result', ops' := result, ops;
      while ops' != [] && !StopsAt(stop, ops'[|ops'|-1])
        invariant Pop(result', ops', stop) == Pop(result, ops, stop)
        decreases |ops'|
      {
        var next := ExeOp(ops'[|ops'|-1], result');
        if next.None? {
          return Underflow;
        }
        result', ops' := next.value, ops'[..|ops'|-1];
      }
      r := Stacks(result', ops');
    }

    method Parse(endToken: string) returns (r: Outcome)
      modifies this
      ensures r == ParseFrom(tokens, old(index), [], [], endToken)
      ensures r.Parsed? ==> index == r.index
    {
      var result, ops := [], [];
      while index < |tokens| && IsContinued(tokens[index], endToken)
        invariant ParseFrom(tokens, index, result, ops, endToken) == ParseFrom(tokens, old(index), [], [], endToken)
        decreases |tokens| - index
      {
        match tokens[index]
        case Identifier(name) =>
          index := index + 1;
          if index >= |tokens| {
            return Failed("Unexpected end of statement");
          }
          if tokens[index].data == "." {
            index := index + 1;
            if index >= |tokens| {
              return Failed("Unexpected end of statement");
            }
            result := result + [Attribute(name, tokens[index].data)];
            index := index + 1;
          } else {
            result := result + [Attribute("", name)];
          }
        case Punctuation(c) =>
          index := index + 1;
          if c == "(" {
            ops := ops + [OPEN];
          } else {
            var popped := PopOperators(result, ops, AtParenthesis);
            if popped.Underflow? {
              return Undefined;
            }
            if popped.ops == [] {
              return Failed("Invalid expression");
            }
            result, ops := popped.result, popped.ops[..|popped.ops|-1];
          }
        case Operators(op, _) =>
          if op == NOT {
            index := index + 1;
            if index >= |tokens| {
              return Failed("Unexpected end of statement");
            }
            ops := ops + [NOT];
          } else {
            var popped := PopOperators(result, ops, Looser(Priority(op)));
            if popped.Underflow? {
              return Undefined;
            }
            result, ops := popped.result, popped.ops + [op];
            index := index + 1;
          }
        case _ =>
          result := result + [Value(tokens[index])];
          index := index + 1;
      }
      if index >= |tokens| {
        return Failed("Unexpected end of statement");
      }
      var popped := PopOperators(result, ops, Never);
      if popped.Underflow? {
        return Undefined;
      }
      if |popped.result| != 1 {
        return Failed("Invalid expression");
      }
      r := Parsed(popped.result[0], index);
    }
  }
}
