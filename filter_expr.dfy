/** The record filter of cmd/bio-pamtool/cmd/filter.go: the type-checking
    translation of a Go expression tree into a filter expression, and the
    evaluation of a filter expression against a SAM record. A log.Panicf or
    a nil dereference is the Panic outcome. */
module FilterExprs {
  import opened Wrappers

  // ---------------------------------------------------------------------
  // the input: the part of go/ast the parser looks at

  /** The operator tokens of unary and binary expressions. */
  datatype Token = NOT | LAND | LOR | EQL | NEQ | GEQ | LEQ | LSS | GTR | OtherOp

  /** A Go expression tree; a literal carries its decoded value, None when
      strconv.Unquote or strconv.ParseInt(_, 0, 64) rejects its text. */
  datatype Ast =
    | Paren(inner: Ast)
    | Call(fun: Ast, args: seq<Ast>)
    | Ident(name: string)
    | Unary(op: Token, operand: Ast)
    | Binary(op: Token, left: Ast, right: Ast)
    | StringLit(strValue: Option<string>)
    | IntLit(intValue: Option<int>)
    | OtherLit
    | OtherNode

  // ---------------------------------------------------------------------
  // filter expressions

  /** The field extractors and flag predicates. */
  datatype Field =
    | RecName | RefName | RefID | Pos | SeqLength | MateRefName | MateRefID | MatePos | Mapq | TempLen
    | Paired | ProperPair | Unmapped | MateUnmapped | Reverse | MateReverse | Read1 | Read2
    | Secondary | QCFail | Duplicate | Supplementary | Chimeric

  datatype ValueType = TypeInt | TypeStr | TypeBool | TypeRegex

  /** The comparison node types. */
  datatype CmpOp = Eql | Neq | Geq | Leq | Lss | Gtr

  /** filterExpr, one constructor per node type; Invalid is the zero
      filterExpr returned for an unknown binary operator. */
  datatype FilterExpr =
    | IntConst(i: int)
    | StrConst(s: string)
    | Regex(x: FilterExpr, pattern: string)
    | FieldNode(f: Field)
    | Not(x: FilterExpr)
    | And(x: FilterExpr, y: FilterExpr)
    | Or(x: FilterExpr, y: FilterExpr)
    | Cmp(op: CmpOp, x: FilterExpr, y: FilterExpr)
    | Invalid

  function FieldType(f: Field): ValueType
  {
    match f
    case RecName | RefName | MateRefName => TypeStr
    case RefID | Pos | SeqLength | MateRefID | MatePos | Mapq | TempLen => TypeInt
    case _ => TypeBool
  }

  /** The vtype the parser stores in each node (the zero filterExpr has
      the zero valueType, int). */
  function VType(e: FilterExpr): ValueType
  {
    match e
    case IntConst(_) => TypeInt
    case StrConst(_) => TypeStr
    case FieldNode(f) => FieldType(f)
    case Invalid => TypeInt
    case _ => TypeBool
  }

  /** The identifiers the parser knows. */
  function FieldOfName(name: string): (f: Option<Field>)
  {
    match name
    case "ref_name" => Some(RefName)
    case "mate_ref_name" => Some(MateRefName)
    case "rec_name" => Some(RecName)
    case "ref_id" => Some(RefID)
    case "position" => Some(Pos)
    case "mate_ref_id" => Some(MateRefID)
    case "mate_position" => Some(MatePos)
    case "sequence_length" => Some(SeqLength)
    case "mapping_quality" => Some(Mapq)
    case "template_length" => Some(TempLen)
    case "paired" => Some(Paired)
    case "proper_pair" => Some(ProperPair)
    case "unmapped" => Some(Unmapped)
    case "mate_is_unmapped" => Some(MateUnmapped)
    case "is_reverse_strand" => Some(Reverse)
    case "mate_is_reverse_strand" => Some(MateReverse)
    case "first_of_pair" => Some(Read1)
    case "second_of_pair" => Some(Read2)
    case "secondary_alignment" => Some(Secondary)
    case "failed_quality_control" => Some(QCFail)
    case "duplicate" => Some(Duplicate)
    case "supplementary" => Some(Supplementary)
    case "chimeric" => Some(Chimeric)
    case _ => None
  }

  /** The identifier of each field. */
  function NameOf(f: Field): (name: string)
    ensures FieldOfName(name) == Some(f)
  {
    match f
    case RefName => "ref_name"
    case MateRefName => "mate_ref_name"
    case RecName => "rec_name"
    case RefID => "ref_id"
    case Pos => "position"
    case MateRefID => "mate_ref_id"
    case MatePos => "mate_position"
    case SeqLength => "sequence_length"
    case Mapq => "mapping_quality"
    case TempLen => "template_length"
    case Paired => "paired"
    case ProperPair => "proper_pair"
    case Unmapped => "unmapped"
    case MateUnmapped => "mate_is_unmapped"
    case Reverse => "is_reverse_strand"
    case MateReverse => "mate_is_reverse_strand"
    case Read1 => "first_of_pair"
    case Read2 => "second_of_pair"
    case Secondary => "secondary_alignment"
    case QCFail => "failed_quality_control"
    case Duplicate => "duplicate"
    case Supplementary => "supplementary"
    case Chimeric => "chimeric"
  }

  // ---------------------------------------------------------------------
  // the typing rules

  function CmpOpOf(t: Token): Option<CmpOp>
  {
    match t
    case EQL => Some(Eql)
    case NEQ => Some(Neq)
    case GEQ => Some(Geq)
    case LEQ => Some(Leq)
    case LSS => Some(Lss)
    case GTR => Some(Gtr)
    case _ => None
  }

  predicate IsEquality(op: CmpOp) { op == Eql || op == Neq }

  /** The type of a well-typed expression, None for an ill-typed one: the
      operand of re() is a string, the operands of !, && and || are bools,
      the operands of == and != have one type, and those of the orderings
      one type, int or string. */
  function TypeOf(e: FilterExpr): Option<ValueType>
  {
    match e
    case IntConst(_) => Some(TypeInt)
    case StrConst(_) => Some(TypeStr)
    case FieldNode(f) => Some(FieldType(f))
    case Regex(x, _) => if TypeOf(x) == Some(TypeStr) then Some(TypeBool) else None
    case Not(x) => if TypeOf(x) == Some(TypeBool) then Some(TypeBool) else None
    case And(x, y) => if TypeOf(x) == Some(TypeBool) && TypeOf(y) == Some(TypeBool) then Some(TypeBool) else None
    case Or(x, y) => if TypeOf(x) == Some(TypeBool) && TypeOf(y) == Some(TypeBool) then Some(TypeBool) else None
    case Cmp(op, x, y) =>
      if TypeOf(x).Some? && TypeOf(x) == TypeOf(y) && (IsEquality(op) || TypeOf(x).value != TypeBool)
      then Some(TypeBool) else None
    case Invalid => None
  }

  /** A well-typed expression carries its type in its vtype. */
  lemma {:induction false} TypeOfIsVType(e: FilterExpr)
    requires TypeOf(e).Some?
    ensures TypeOf(e) == Some(VType(e))
  {
  }

  // ---------------------------------------------------------------------
  // exprParser.parse

  /** The parser's outcome: the node (None for nil) and the parser's err;
      Panic for the nil dereference. */
  datatype ParseResult = Parsed(node: Option<FilterExpr>, err: Option<string>) | ParsePanic

  /** setError: the first error is kept. */
  function SetError(err: Option<string>, e: string): (r: Option<string>)
    ensures r.Some?
  {
    if err.Some? then err else Some(e)
  }

  /** doassert: a failed check overwrites the error. */
  function DoAssert(err: Option<string>, cond: bool, message: string): (r: Option<string>)
    ensures err.Some? ==> r.Some?
    ensures r.None? <==> err.None? && cond
  {
    if cond then err else Some(message)
  }

  /** The type check of a binary operator, as the parser performs it. */
  function BinaryCheck(op: CmpOp, x: FilterExpr, y: FilterExpr): bool
  {
    if IsEquality(op) then
      if VType(x) == TypeStr then VType(x) == VType(y) || VType(y) == TypeRegex else VType(x) == VType(y)
    else VType(x) == VType(y) && (VType(x) == TypeInt || VType(x) == TypeStr)
  }

  /** exprParser.parse with the parser's error err on entry. With nilCheck
      false it is the code as written: ! reads the vtype of its operand
      before looking at the error, which dereferences the nil operand of a
      failed parse. With nilCheck true, ! returns nil for a nil operand. A
      regular expression that regexp.Compile rejects is one for which
      compiles is false. */
  function ParseNode(a: Ast, err: Option<string>, compiles: string -> bool, nilCheck: bool): (r: ParseResult)
    ensures r.Parsed? && (err.Some? || r.node.None?) ==> r.err.Some?
    decreases a
  {
    match a
    case Paren(inner) => ParseNode(inner, err, compiles, nilCheck)
    case Call(fun, args) =>
      if !fun.Ident? then Parsed(None, SetError(err, "expect ident"))
      else if fun.name != "re" then Parsed(None, SetError(err, "unknown expr type"))
      else if |args| != 2 then Parsed(None, SetError(err, "expect two args for re()"))
      else
        var rx := ParseNode(args[0], err, compiles, nilCheck);
        if rx.ParsePanic? then ParsePanic
        else
          var ry := ParseNode(args[1], rx.err, compiles, nilCheck);
          if ry.ParsePanic? then ParsePanic
          else if ry.err.Some? then Parsed(None, ry.err)
          else
            var x, y := rx.node.value, ry.node.value;
            var e1 := DoAssert(None, VType(x) == TypeStr && VType(y) == TypeStr, "Operang for re() must be string");
            var pattern := if y.StrConst? then y.s else "";
            var e2 := if compiles(pattern) then e1 else SetError(e1, "regexp: invalid pattern");
            Parsed(Some(Regex(x, pattern)), e2)
    case Unary(op, operand) =>
      if op != NOT then Parsed(None, SetError(err, "unknown expr type"))
      else
        var rx := ParseNode(operand, err, compiles, nilCheck);
        if rx.ParsePanic? then ParsePanic
        else if rx.node.None? then (if nilCheck then Parsed(None, rx.err) else ParsePanic)
        else
          var e1 := DoAssert(rx.err, VType(rx.node.value) == TypeBool, "Operang for ! must be bool");
          if e1.Some? then Parsed(None, e1) else Parsed(Some(Not(rx.node.value)), None)
    case Binary(op, left, right) =>
      var rx := ParseNode(left, err, compiles, nilCheck);
      if rx.ParsePanic? then ParsePanic
      else
        var ry := ParseNode(right, rx.err, compiles, nilCheck);
        if ry.ParsePanic? then ParsePanic
        else if ry.err.Some? then Parsed(None, ry.err)
        else
          var x, y := rx.node.value, ry.node.value;
          if op == LAND || op == LOR then
            var e1 := DoAssert(None, VType(x) == TypeBool && VType(y) == TypeBool, "Operands must be boolean");
            Parsed(Some(if op == LAND then And(x, y) else Or(x, y)), e1)
          else if CmpOpOf(op).Some? then
            var c := CmpOpOf(op).value;
            var e1 := DoAssert(None, BinaryCheck(c, x, y),
                               if IsEquality(c) then "Operands must of the same type" else "Wrong operand type");
            Parsed(Some(Cmp(c, x, y)), e1)
          else Parsed(Some(Invalid), SetError(None, "unknown binary op"))
    case StringLit(v) =>
      Parsed(Some(StrConst(if v.Some? then v.value else "")), if v.Some? then err else SetError(err, "invalid syntax"))
    case IntLit(v) =>
      if v.Some? && -0x8000_0000_0000_0000 <= v.value < 0x8000_0000_0000_0000 then Parsed(Some(IntConst(v.value)), err)
      else Parsed(Some(IntConst(-1)), Some("value out of range"))
    case Ident(name) =>
      if FieldOfName(name).Some? then Parsed(Some(FieldNode(FieldOfName(name).value)), err)
      else Parsed(None, SetError(err, "unknown expr type"))
    case OtherLit => Parsed(None, SetError(err, "unknown expr type"))
    case OtherNode => Parsed(None, SetError(err, "unknown expr type"))
  }

  /** parseFilterExpr's outcomes. */
  datatype FilterOutcome = Accepted(expr: FilterExpr) | Rejected(msg: string) | Panic

  /** parseFilterExpr on a tree that go/parser has produced: the parser's
      error, or the expression when its type is bool. */
  function ParseFilterExprWith(a: Ast, compiles: string -> bool, nilCheck: bool): (r: FilterOutcome)
    ensures r.Accepted? ==> VType(r.expr) == TypeBool
  {
    match ParseNode(a, None, compiles, nilCheck)
    case ParsePanic => Panic
    case Parsed(node, err) =>
      if err.Some? then Rejected(err.value)
      else if VType(node.value) != TypeBool then Rejected("not a boolean expression")
      else Accepted(node.value)
  }

  function ParseFilterExprAsWritten(a: Ast, compiles: string -> bool): FilterOutcome
  {
    ParseFilterExprWith(a, compiles, false)
  }

  /** parseFilterExpr, returning nil from ! when its operand failed. */
  function ParseFilterExpr(a: Ast, compiles: string -> bool): FilterOutcome
  {
    ParseFilterExprWith(a, compiles, true)
  }

  /** `!nosuchfield` reaches the nil dereference. */
  lemma NotOfUnknownPanics(compiles: string -> bool)
    ensures ParseFilterExprAsWritten(Unary(NOT, Ident("nosuchfield")), compiles) == Panic
    ensures ParseFilterExpr(Unary(NOT, Ident("nosuchfield")), compiles).Rejected?
  {
  }

  /** With the nil check the parser never panics. */
  lemma {:induction false} ParseNeverPanics(a: Ast, err: Option<string>, compiles: string -> bool)
    ensures ParseNode(a, err, compiles, true).Parsed?
  {
    match a
    case Paren(inner) => ParseNeverPanics(inner, err, compiles);
    case Call(fun, args) =>
      if fun.Ident? && fun.name == "re" && |args| == 2 {
        ParseNeverPanics(args[0], err, compiles);
        ParseNeverPanics(args[1], ParseNode(args[0], err, compiles, true).err, compiles);
      }
    case Unary(op, operand) => ParseNeverPanics(operand, err, compiles);
    case Binary(op, left, right) =>
      ParseNeverPanics(left, err, compiles);
      ParseNeverPanics(right, ParseNode(left, err, compiles, true).err, compiles);
    case _ =>
  }

  lemma ParseFilterExprNeverPanics(a: Ast, compiles: string -> bool)
    ensures !ParseFilterExpr(a, compiles).Panic?
  {
    ParseNeverPanics(a, None, compiles);
  }

  /** A parse that ends without error started without one and produced a
      well-typed expression. */
  lemma {:induction false} ParsedIsWellTyped(a: Ast, err: Option<string>, compiles: string -> bool, nilCheck: bool)
    requires ParseNode(a, err, compiles, nilCheck).Parsed? && ParseNode(a, err, compiles, nilCheck).err.None?
    ensures err.None?
    ensures TypeOf(ParseNode(a, err, compiles, nilCheck).node.value) == Some(VType(ParseNode(a, err, compiles, nilCheck).node.value))
  {
    match a
    case Paren(inner) => ParsedIsWellTyped(inner, err, compiles, nilCheck);
    case Call(fun, args) =>
      var rx := ParseNode(args[0], err, compiles, nilCheck);
      ParsedIsWellTyped(args[0], err, compiles, nilCheck);
      ParsedIsWellTyped(args[1], rx.err, compiles, nilCheck);
    case Unary(op, operand) =>
      ParsedIsWellTyped(operand, err, compiles, nilCheck);
    case Binary(op, left, right) =>
      var rx := ParseNode(left, err, compiles, nilCheck);
      ParsedIsWellTyped(left, err, compiles, nilCheck);
      ParsedIsWellTyped(right, rx.err, compiles, nilCheck);
    case _ =>
  }

  /** parseFilterExpr accepts only well-typed bool expressions. */
  lemma AcceptedIsBool(a: Ast, compiles: string -> bool)
    requires ParseFilterExpr(a, compiles).Accepted?
    ensures TypeOf(ParseFilterExpr(a, compiles).expr) == Some(TypeBool)
  {
    ParsedIsWellTyped(a, None, compiles, true);
  }

  /** The Go tree of an expression. */
  function Print(e: FilterExpr): Ast
  {
    match e
    case IntConst(i) => IntLit(Some(i))
    case StrConst(s) => StringLit(Some(s))
    case Regex(x, p) => Call(Ident("re"), [Print(x), StringLit(Some(p))])
    case FieldNode(f) => Ident(NameOf(f))
    case Not(x) => Unary(NOT, Print(x))
    case And(x, y) => Binary(LAND, Print(x), Print(y))
    case Or(x, y) => Binary(LOR, Print(x), Print(y))
    case Cmp(op, x, y) => Binary(TokenOf(op), Print(x), Print(y))
    case Invalid => OtherNode
  }

  /** Literals and patterns the parser can take in. */
  predicate Printable(e: FilterExpr, compiles: string -> bool)
  {
    match e
    case IntConst(i) => -0x8000_0000_0000_0000 <= i < 0x8000_0000_0000_0000
    case StrConst(_) => true
    case Regex(x, p) => Printable(x, compiles) && compiles(p)
    case FieldNode(_) => true
    case Not(x) => Printable(x, compiles)
    case And(x, y) => Printable(x, compiles) && Printable(y, compiles)
    case Or(x, y) => Printable(x, compiles) && Printable(y, compiles)
    case Cmp(_, x, y) => Printable(x, compiles) && Printable(y, compiles)
    case Invalid => false
  }

  /** The token Print writes for a comparison. */
  function TokenOf(op: CmpOp): (t: Token)
    ensures CmpOpOf(t) == Some(op)
  {
    match op case Eql => EQL case Neq => NEQ case Geq => GEQ case Leq => LEQ case Lss => LSS case Gtr => GTR
  }

  /** Printed subtrees that parse back make a printed comparison parse
      back. */
  lemma ParseCmpStep(op: CmpOp, x: FilterExpr, y: FilterExpr, compiles: string -> bool, nilCheck: bool)
    requires ParseNode(Print(x), None, compiles, nilCheck) == Parsed(Some(x), None)
    requires ParseNode(Print(y), None, compiles, nilCheck) == Parsed(Some(y), None)
    requires TypeOf(Cmp(op, x, y)).Some? && TypeOf(x) == Some(VType(x)) && TypeOf(y) == Some(VType(y))
    ensures ParseNode(Binary(TokenOf(op), Print(x), Print(y)), None, compiles, nilCheck) == Parsed(Some(Cmp(op, x, y)), None)
  {
    assert BinaryCheck(op, x, y);
  }

  lemma ParseLogicStep(t: Token, x: FilterExpr, y: FilterExpr, compiles: string -> bool, nilCheck: bool)
    requires t == LAND || t == LOR
    requires ParseNode(Print(x), None, compiles, nilCheck) == Parsed(Some(x), None)
    requires ParseNode(Print(y), None, compiles, nilCheck) == Parsed(Some(y), None)
    requires VType(x) == TypeBool && VType(y) == TypeBool
    ensures ParseNode(Binary(t, Print(x), Print(y)), None, compiles, nilCheck)
            == Parsed(Some(if t == LAND then And(x, y) else Or(x, y)), None)
  {
  }

  lemma ParseRegexStep(x: FilterExpr, p: string, compiles: string -> bool, nilCheck: bool)
    requires ParseNode(Print(x), None, compiles, nilCheck) == Parsed(Some(x), None)
    requires VType(x) == TypeStr && compiles(p)
    ensures ParseNode(Call(Ident("re"), [Print(x), StringLit(Some(p))]), None, compiles, nilCheck)
            == Parsed(Some(Regex(x, p)), None)
  {
    var args := [Print(x), StringLit(Some(p))];
    assert args[0] == Print(x) && args[1] == StringLit(Some(p));
  }

  /** Every well-typed expression is what the parser makes of its tree:
      the typing rules are exactly the parser's checks. */
  lemma {:induction false} ParsePrint(e: FilterExpr, compiles: string -> bool, nilCheck: bool)
    requires TypeOf(e).Some? && Printable(e, compiles)
    ensures ParseNode(Print(e), None, compiles, nilCheck) == Parsed(Some(e), None)
  {
    match e
    case Regex(x, p) =>
      ParsePrint(x, compiles, nilCheck);
      ParseRegexStep(x, p, compiles, nilCheck);
    case Not(x) =>
      ParsePrint(x, compiles, nilCheck);
      TypeOfIsVType(x);
    case And(x, y) =>
      ParsePrint(x, compiles, nilCheck);
      ParsePrint(y, compiles, nilCheck);
      ParseLogicStep(LAND, x, y, compiles, nilCheck);
    case Or(x, y) =>
      ParsePrint(x, compiles, nilCheck);
      ParsePrint(y, compiles, nilCheck);
      ParseLogicStep(LOR, x, y, compiles, nilCheck);
    case Cmp(op, x, y) =>
      ParsePrint(x, compiles, nilCheck);
      ParsePrint(y, compiles, nilCheck);
      TypeOfIsVType(x);
      TypeOfIsVType(y);
      ParseCmpStep(op, x, y, compiles, nilCheck);
    case IntConst(_) =>
    case StrConst(_) =>
    case FieldNode(f) =>
  }

  // ---------------------------------------------------------------------
  // evaluate

  /** What the filter reads of a sam.Record. */
  datatype Record = Record(
    name: string, refName: string, refId: int, pos: int, seqLength: int,
    mateRefName: string, mateRefId: int, matePos: int, mapq: int, tempLen: int, flags: bv16)

  const FLAG_PAIRED: bv16 := 0x1
  const FLAG_PROPER_PAIR: bv16 := 0x2
  const FLAG_UNMAPPED: bv16 := 0x4
  const FLAG_MATE_UNMAPPED: bv16 := 0x8
  const FLAG_REVERSE: bv16 := 0x10
  const FLAG_MATE_REVERSE: bv16 := 0x20
  const FLAG_READ1: bv16 := 0x40
  const FLAG_READ2: bv16 := 0x80
  const FLAG_SECONDARY: bv16 := 0x100
  const FLAG_QC_FAIL: bv16 := 0x200
  const FLAG_DUPLICATE: bv16 := 0x400
  const FLAG_SUPPLEMENTARY: bv16 := 0x800

  /** exprValue: the type tag and one field per type, the others at their
      zero value. */
  datatype ExprValue = ExprValue(vtype: ValueType, intValue: int, strValue: string, boolValue: bool)

  function IntValue(v: int): ExprValue { ExprValue(TypeInt, v, "", false) }
  function StrValue(v: string): ExprValue { ExprValue(TypeStr, 0, v, false) }
  function BoolValue(v: bool): ExprValue { ExprValue(TypeBool, 0, "", v) }

  function HasFlag(rec: Record, flag: bv16): bool { rec.flags & flag != 0 }

  function FieldValue(f: Field, rec: Record): (v: ExprValue)
    ensures v.vtype == FieldType(f)
  {
    match f
    case RecName => StrValue(rec.name)
    case RefName => StrValue(rec.refName)
    case RefID => IntValue(rec.refId)
    case Pos => IntValue(rec.pos)
    case SeqLength => IntValue(rec.seqLength)
    case MateRefName => StrValue(rec.mateRefName)
    case MateRefID => IntValue(rec.mateRefId)
    case MatePos => IntValue(rec.matePos)
    case Mapq => IntValue(rec.mapq)
    case TempLen => IntValue(rec.tempLen)
    case Reverse => BoolValue(HasFlag(rec, FLAG_REVERSE))
    case MateReverse => BoolValue(HasFlag(rec, FLAG_MATE_REVERSE))
    case Paired => BoolValue(HasFlag(rec, FLAG_PAIRED))
    case ProperPair => BoolValue(HasFlag(rec, FLAG_PROPER_PAIR))
    case Unmapped => BoolValue(HasFlag(rec, FLAG_UNMAPPED))
    case MateUnmapped => BoolValue(HasFlag(rec, FLAG_MATE_UNMAPPED))
    case Read1 => BoolValue(HasFlag(rec, FLAG_READ1))
    case Read2 => BoolValue(HasFlag(rec, FLAG_READ2))
    case Secondary => BoolValue(HasFlag(rec, FLAG_SECONDARY))
    case QCFail => BoolValue(HasFlag(rec, FLAG_QC_FAIL))
    case Duplicate => BoolValue(HasFlag(rec, FLAG_DUPLICATE))
    case Supplementary => BoolValue(HasFlag(rec, FLAG_SUPPLEMENTARY))
    case Chimeric =>
      BoolValue(HasFlag(rec, FLAG_PAIRED) && !HasFlag(rec, FLAG_UNMAPPED) && !HasFlag(rec, FLAG_MATE_UNMAPPED)
                && rec.refId != rec.mateRefId)
  }

  /** Go's string order: byte-wise, which for UTF-8 text is the order of
      the code points. */
  predicate StrLess(a: string, b: string)
  {
    if |a| == 0 then |b| > 0
    else if |b| == 0 then false
    else a[0] < b[0] || (a[0] == b[0] && StrLess(a[1..], b[1..]))
  }

  function CompareInts(op: CmpOp, a: int, b: int): bool
  {
    match op
    case Eql => a == b case Neq => a != b
    case Geq => a >= b case Leq => a <= b
    case Lss => a < b case Gtr => a > b
  }

  function CompareStrs(op: CmpOp, a: string, b: string): bool
  {
    match op
    case Eql => a == b case Neq => a != b
    case Geq => !StrLess(a, b) case Leq => !StrLess(b, a)
    case Lss => StrLess(a, b) case Gtr => StrLess(b, a)
  }

  /** filterExpr.evaluate; None is a panic. With boolEq false it is the
      code as written, whose comparison switch has no case for bool
      operands, so == and != on bools panic; with boolEq true they compare
      the bools. matches(pattern, s) is regexp.MatchString. */
  function EvaluateWith(e: FilterExpr, rec: Record, matches: (string, string) -> bool, boolEq: bool): Option<ExprValue>
  {
    match e
    case IntConst(i) => Some(IntValue(i))
    case StrConst(s) => Some(StrValue(s))
    case Regex(x, p) =>
      var xv := EvaluateWith(x, rec, matches, boolEq);
      if xv.None? || xv.value.vtype != TypeStr then None else Some(BoolValue(matches(p, xv.value.strValue)))
    case FieldNode(f) => Some(FieldValue(f, rec))
    case Not(x) =>
      var xv := EvaluateWith(x, rec, matches, boolEq);
      if xv.None? || xv.value.vtype != TypeBool then None else Some(BoolValue(!xv.value.boolValue))
    case And(x, y) =>
      var xv, yv := EvaluateWith(x, rec, matches, boolEq), EvaluateWith(y, rec, matches, boolEq);
      if xv.None? || yv.None? || xv.value.vtype != TypeBool || yv.value.vtype != TypeBool then None
      else Some(BoolValue(xv.value.boolValue && yv.value.boolValue))
    case Or(x, y) =>
      var xv, yv := EvaluateWith(x, rec, matches, boolEq), EvaluateWith(y, rec, matches, boolEq);
      if xv.None? || yv.None? || xv.value.vtype != TypeBool || yv.value.vtype != TypeBool then None
      else Some(BoolValue(xv.value.boolValue || yv.value.boolValue))
    case Cmp(op, x, y) =>
      var xv, yv := EvaluateWith(x, rec, matches, boolEq), EvaluateWith(y, rec, matches, boolEq);
      if xv.None? || yv.None? then None
      else if xv.value.vtype == TypeInt then Some(BoolValue(CompareInts(op, xv.value.intValue, yv.value.intValue)))
      else if xv.value.vtype == TypeStr then Some(BoolValue(CompareStrs(op, xv.value.strValue, yv.value.strValue)))
      else if boolEq && xv.value.vtype == TypeBool && IsEquality(op) then
        Some(BoolValue((xv.value.boolValue == yv.value.boolValue) == (op == Eql)))
      else None
    case Invalid => None
  }

  function EvaluateAsWritten(e: FilterExpr, rec: Record, matches: (string, string) -> bool): Option<ExprValue>
  {
    EvaluateWith(e, rec, matches, false)
  }

  /** evaluate with == and != on bools, which the parser accepts. */
  function Evaluate(e: FilterExpr, rec: Record, matches: (string, string) -> bool): Option<ExprValue>
  {
    EvaluateWith(e, rec, matches, true)
  }

  /** `paired == paired` is accepted by the parser, and evaluate as
      written panics on it. */
  lemma BoolEqualityPanics(compiles: string -> bool, rec: Record, matches: (string, string) -> bool)
    ensures ParseFilterExpr(Binary(EQL, Ident("paired"), Ident("paired")), compiles)
            == Accepted(Cmp(Eql, FieldNode(Paired), FieldNode(Paired)))
    ensures EvaluateAsWritten(Cmp(Eql, FieldNode(Paired), FieldNode(Paired)), rec, matches) == None
    ensures Evaluate(Cmp(Eql, FieldNode(Paired), FieldNode(Paired)), rec, matches) == Some(BoolValue(true))
  {
    assert ParseNode(Ident("paired"), None, compiles, true) == Parsed(Some(FieldNode(Paired)), None);
    var v := FieldValue(Paired, rec);
    assert v.vtype == TypeBool;
    assert EvaluateWith(FieldNode(Paired), rec, matches, false) == Some(v);
    assert EvaluateWith(FieldNode(Paired), rec, matches, true) == Some(v);
  }

  // ---------------------------------------------------------------------
  // the meaning of a well-typed expression

  /** A typed value. */
  datatype Value = I(i: int) | S(s: string) | B(b: bool)

  function Embed(v: Value): ExprValue
  {
    match v
    case I(i) => IntValue(i)
    case S(s) => StrValue(s)
    case B(b) => BoolValue(b)
  }

  function FieldMeaning(f: Field, rec: Record): (v: Value)
    ensures Embed(v) == FieldValue(f, rec)
  {
    var ev := FieldValue(f, rec);
    match ev.vtype
    case TypeInt => I(ev.intValue)
    case TypeStr => S(ev.strValue)
    case _ => B(ev.boolValue)
  }

  /** The meaning of a well-typed expression: boolean connectives, and
      comparisons of numbers by size and strings by Go's string order. */
  function Meaning(e: FilterExpr, rec: Record, matches: (string, string) -> bool): Value
    requires TypeOf(e).Some?
  {
    match e
    case IntConst(i) => I(i)
    case StrConst(s) => S(s)
    case FieldNode(f) => FieldMeaning(f, rec)
    case Regex(x, p) => B(matches(p, Meaning(x, rec, matches).s))
    case Not(x) => B(!Meaning(x, rec, matches).b)
    case And(x, y) => B(Meaning(x, rec, matches).b && Meaning(y, rec, matches).b)
    case Or(x, y) => B(Meaning(x, rec, matches).b || Meaning(y, rec, matches).b)
    case Cmp(op, x, y) =>
      var a, b := Meaning(x, rec, matches), Meaning(y, rec, matches);
      B(match a
        case I(n) => CompareInts(op, n, b.i)
        case S(t) => CompareStrs(op, t, b.s)
        case B(c) => (c == b.b) == (op == Eql))
  }

  function TypeOfValue(v: Value): ValueType
  {
    match v
    case I(_) => TypeInt
    case S(_) => TypeStr
    case B(_) => TypeBool
  }

  /** Evaluating a well-typed expression does not panic and yields its
      meaning, of its type. */
  lemma {:induction false} EvaluateIsMeaning(e: FilterExpr, rec: Record, matches: (string, string) -> bool)
    requires TypeOf(e).Some?
    ensures Evaluate(e, rec, matches) == Some(Embed(Meaning(e, rec, matches)))
    ensures TypeOfValue(Meaning(e, rec, matches)) == TypeOf(e).value
  {
    match e
    case Regex(x, p) => EvaluateIsMeaning(x, rec, matches);
    case Not(x) => EvaluateIsMeaning(x, rec, matches);
    case And(x, y) => EvaluateIsMeaning(x, rec, matches); EvaluateIsMeaning(y, rec, matches);
    case Or(x, y) => EvaluateIsMeaning(x, rec, matches); EvaluateIsMeaning(y, rec, matches);
    case Cmp(op, x, y) => EvaluateIsMeaning(x, rec, matches); EvaluateIsMeaning(y, rec, matches);
    case FieldNode(f) =>
    case _ =>
  }

  /** evaluateFilterExpr: the bool an accepted filter yields for a record;
      it never panics. */
  function EvaluateFilterExpr(e: FilterExpr, rec: Record, matches: (string, string) -> bool): (r: bool)
    requires TypeOf(e) == Some(TypeBool)
    ensures Evaluate(e, rec, matches) == Some(BoolValue(r))
  {
    EvaluateIsMeaning(e, rec, matches);
    Meaning(e, rec, matches).b
  }
}
