/**
 * The JSON assertion translator of toolbox/metaSMT-server/solver.hpp:
 * create_assertion, create_unary_assertion, create_binary_assertion and
 * is_unary / is_binary (solver.cpp).
 *
 * A boost property tree is a node with a string datum and an ordered list of
 * keyed children; `get<T>(key)` reads the datum of the first child with that
 * key and `get_child(key)` returns that child.  Each metaSMT operator applied
 * through `evaluate` becomes a constructor of Term.
 */
module Assertions {
  import opened Wrappers
  import opened Decimal

  datatype Tree = Tree(data: string, children: seq<(string, Tree)>)

  datatype UnOp = Not | BvNot | BvNeg

  datatype BinOp =
    | Equal | Nequal | Implies | And | Nand | Or | Nor | Xor | Xnor
    | BvAnd | BvNand | BvOr | BvNor | BvXor | BvXnor
    | BvAdd | BvMul | BvSub | BvUdiv | BvUrem | BvSdiv | BvSrem
    | BvComp
    | BvSlt | BvSgt | BvSle | BvSge | BvUlt | BvUgt | BvUle | BvUge
    | BvShl | BvShr | BvAshr
    | Concat

  datatype Term =
    | Predicate(name: string)
    | Bitvector(name: string)
    | BvUint(value: nat, width: nat)
    | Unary(uop: UnOp, operand: Term)
    | Binary(bop: BinOp, lhs: Term, rhs: Term)

  /**
   * The exceptions the translator throws: ptree_bad_path for a missing key,
   * ptree_bad_data for a datum that does not convert, UnsupportedOperatorException
   * and UndefinedVariableException.
   */
  datatype Error =
    | BadPath(key: string)
    | BadData(key: string)
    | UnsupportedOperator(op: string)
    | UndefinedVariable(name: string)

  // ---------------------------------------------------------- property trees

  /** Position of the first child with the given key, as ptree::find looks it up. */
  function FindIndex(children: seq<(string, Tree)>, key: string): (r: Option<nat>)
    ensures r.Some? <==> exists i :: 0 <= i < |children| && children[i].0 == key
    ensures r.Some? ==> r.value < |children| && children[r.value].0 == key
    ensures r.Some? ==> forall i :: 0 <= i < r.value ==> children[i].0 != key
  {
    if |children| == 0 then None
    else if children[0].0 == key then Some(0)
    else match FindIndex(children[1..], key)
      case None => None
      case Some(i) => Some(i + 1)
  }

  predicate HasKey(t: Tree, key: string) {
    FindIndex(t.children, key).Some?
  }

  /** get_child(key). */
  function Child(t: Tree, key: string): (r: Result<Tree, Error>)
    ensures r.Ok? <==> HasKey(t, key)
    ensures r.Err? ==> r.error == BadPath(key)
    ensures r.Ok? ==> r.value < t
  {
    match FindIndex(t.children, key)
    case None => Err(BadPath(key))
    case Some(i) =>
      assert t.children[i] in t.children;
      Ok(t.children[i].1)
  }

  /** get<std::string>(key): the datum of the first child with that key. */
  function GetString(t: Tree, key: string): (r: Result<string, Error>)
    ensures r.Ok? <==> HasKey(t, key)
    ensures r.Err? ==> r.error == BadPath(key)
    ensures r.Ok? ==> exists i :: 0 <= i < |t.children| && t.children[i].0 == key && t.children[i].1.data == r.value
  {
    match Child(t, key)
    case Err(e) => Err(e)
    case Ok(c) => Ok(c.data)
  }

  /** get<signed>(key): a missing key is a bad path, a datum that is no `int` is bad data. */
  function GetSigned(t: Tree, key: string): (r: Result<int, Error>)
    ensures !HasKey(t, key) ==> r == Err(BadPath(key))
    ensures HasKey(t, key) && r.Err? ==> r.error == BadData(key)
    ensures r.Ok? ==> -(INT_LIMIT as int) <= r.value < INT_LIMIT
  {
    match GetString(t, key)
    case Err(e) => Err(e)
    case Ok(s) => match ParseSigned(s)
      case None => Err(BadData(key))
      case Some(v) => Ok(v)
  }

  /** get<unsigned>(key): a missing key is a bad path, a datum that is no `unsigned` is bad data. */
  function GetUnsigned(t: Tree, key: string): (r: Result<nat, Error>)
    ensures !HasKey(t, key) ==> r == Err(BadPath(key))
    ensures HasKey(t, key) && r.Err? ==> r.error == BadData(key)
    ensures r.Ok? ==> r.value < UINT_LIMIT
  {
    match GetString(t, key)
    case Err(e) => Err(e)
    case Ok(s) => match ParseUnsigned(s)
      case None => Err(BadData(key))
      case Some(v) => Ok(v)
  }

  /** is_unary: the node has an `operand` child. */
  predicate IsUnary(t: Tree)
    ensures IsUnary(t) <==> exists i :: 0 <= i < |t.children| && t.children[i].0 == "operand"
  {
    HasKey(t, "operand")
  }

  /** is_binary: the node has both an `lhs` and an `rhs` child. */
  predicate IsBinary(t: Tree)
    ensures IsBinary(t) <==>
      (exists i :: 0 <= i < |t.children| && t.children[i].0 == "lhs") &&
      (exists i :: 0 <= i < |t.children| && t.children[i].0 == "rhs")
  {
    HasKey(t, "lhs") && HasKey(t, "rhs")
  }

  // ---------------------------------------------------------- operator tables

  /**
   * The unary dispatch of create_unary_assertion.  The source compares `op`
   * against each name in turn; the names are pairwise distinct, so a match on
   * the literals selects the same branch.
   */
  function UnOpOf(op: string): Option<UnOp> {
    match op
    case "not" => Some(Not)
    case "bvnot" => Some(BvNot)
    case "bvneg" => Some(BvNeg)
    case _ => None
  }

  /**
   * The binary dispatch chain of create_binary_assertion, in its order, with
   * its aliases (all names pairwise distinct, as for UnOpOf).
   */
  function BinOpOf(op: string): Option<BinOp> {
    match op
    case "equal" => Some(Equal) case "=" => Some(Equal)
    case "nequal" => Some(Nequal) case "!=" => Some(Nequal)
    case "implies" => Some(Implies) case "=>" => Some(Implies)
    case "and" => Some(And) case "&&" => Some(And)
    case "nand" => Some(Nand)
    case "or" => Some(Or) case "||" => Some(Or)
    case "nor" => Some(Nor)
    case "xor" => Some(Xor)
    case "xnor" => Some(Xnor)
    case "bvand" => Some(BvAnd) case "&" => Some(BvAnd)
    case "bvnand" => Some(BvNand)
    case "bvor" => Some(BvOr) case "|" => Some(BvOr)
    case "bvnor" => Some(BvNor)
    case "bvxor" => Some(BvXor) case "^" => Some(BvXor)
    case "bvxnor" => Some(BvXnor)
    case "bvadd" => Some(BvAdd) case "+" => Some(BvAdd)
    case "bvmul" => Some(BvMul) case "*" => Some(BvMul)
    case "bvsub" => Some(BvSub) case "-" => Some(BvSub)
    case "bvudiv" => Some(BvUdiv)
    case "bvurem" => Some(BvUrem)
    case "bvsdiv" => Some(BvSdiv)
    case "bvsrem" => Some(BvSrem)
    case "bvcomp" => Some(BvComp) case "==" => Some(BvComp)
    case "bvslt" => Some(BvSlt)
    case "bvsgt" => Some(BvSgt)
    case "bvsle" => Some(BvSle)
    case "bvsge" => Some(BvSge)
    case "bvult" => Some(BvUlt)
    case "bvugt" => Some(BvUgt)
    case "bvule" => Some(BvUle)
    case "bvuge" => Some(BvUge)
    case "bvshl" => Some(BvShl)
    case "bvshr" => Some(BvShr)
    case "bvashr" => Some(BvAshr)
    case "concat" => Some(Concat) case "++" => Some(Concat)
    case _ => None
  }

  /** The spelled-out name of each operator. */
  function UnOpName(u: UnOp): string {
    match u
    case Not => "not"
    case BvNot => "bvnot"
    case BvNeg => "bvneg"
  }

  function BinOpName(b: BinOp): string {
    match b
    case Equal => "equal" case Nequal => "nequal" case Implies => "implies"
    case And => "and" case Nand => "nand" case Or => "or" case Nor => "nor"
    case Xor => "xor" case Xnor => "xnor"
    case BvAnd => "bvand" case BvNand => "bvnand" case BvOr => "bvor" case BvNor => "bvnor"
    case BvXor => "bvxor" case BvXnor => "bvxnor"
    case BvAdd => "bvadd" case BvMul => "bvmul" case BvSub => "bvsub"
    case BvUdiv => "bvudiv" case BvUrem => "bvurem" case BvSdiv => "bvsdiv" case BvSrem => "bvsrem"
    case BvComp => "bvcomp"
    case BvSlt => "bvslt" case BvSgt => "bvsgt" case BvSle => "bvsle" case BvSge => "bvsge"
    case BvUlt => "bvult" case BvUgt => "bvugt" case BvUle => "bvule" case BvUge => "bvuge"
    case BvShl => "bvshl" case BvShr => "bvshr" case BvAshr => "bvashr"
    case Concat => "concat"
  }

  lemma UnaryNamesInverse(u: UnOp)
    ensures UnOpOf(UnOpName(u)) == Some(u)
  {
  }

  // The binary table is checked in the groups the source lists it in.

  lemma LogicNamesInverse(b: BinOp)
    requires b in {Equal, Nequal, Implies, And, Nand, Or, Nor, Xor, Xnor}
    ensures BinOpOf(BinOpName(b)) == Some(b)
  {
  }

  lemma BitwiseNamesInverse(b: BinOp)
    requires b in {BvAnd, BvNand, BvOr, BvNor, BvXor, BvXnor}
    ensures BinOpOf(BinOpName(b)) == Some(b)
  {
  }

  lemma ArithmeticNamesInverse(b: BinOp)
    requires b in {BvAdd, BvMul, BvSub, BvUdiv, BvUrem, BvSdiv, BvSrem, BvComp}
    ensures BinOpOf(BinOpName(b)) == Some(b)
  {
  }

  lemma SignedCompareNamesInverse(b: BinOp)
    requires b in {BvSlt, BvSgt, BvSle, BvSge}
    ensures BinOpOf(BinOpName(b)) == Some(b)
  {
  }

  lemma UnsignedCompareNamesInverse(b: BinOp)
    requires b in {BvUlt, BvUgt, BvUle, BvUge}
    ensures BinOpOf(BinOpName(b)) == Some(b)
  {
  }

  lemma ShiftConcatNamesInverse(b: BinOp)
    requires b in {BvShl, BvShr, BvAshr, Concat}
    ensures BinOpOf(BinOpName(b)) == Some(b)
  {
  }

  /** Every binary operator is reached by its own name. */
  lemma BinaryNamesInverse(b: BinOp)
    ensures BinOpOf(BinOpName(b)) == Some(b)
  {
    if b in {Equal, Nequal, Implies, And, Nand, Or, Nor, Xor, Xnor} {
      LogicNamesInverse(b);
    } else if b in {BvAnd, BvNand, BvOr, BvNor, BvXor, BvXnor} {
      BitwiseNamesInverse(b);
    } else if b in {BvAdd, BvMul, BvSub, BvUdiv, BvUrem, BvSdiv, BvSrem, BvComp} {
      ArithmeticNamesInverse(b);
    } else if b in {BvSlt, BvSgt, BvSle, BvSge} {
      SignedCompareNamesInverse(b);
    } else if b in {BvUlt, BvUgt, BvUle, BvUge} {
      UnsignedCompareNamesInverse(b);
    } else {
      ShiftConcatNamesInverse(b);
    }
  }

  /** The short symbol the source accepts beside an operator's name, or the name itself where there is none. */
  function BinOpSymbol(b: BinOp): string {
    match b
    case Equal => "=" case Nequal => "!=" case Implies => "=>" case And => "&&" case Or => "||"
    case BvAnd => "&" case BvOr => "|" case BvXor => "^"
    case BvAdd => "+" case BvMul => "*" case BvSub => "-"
    case BvComp => "=="
    case Concat => "++"
    case _ => BinOpName(b)
  }

  /** The unary dispatch accepts nothing but the three operators' names. */
  lemma UnaryNamesOnly(op: string)
    ensures UnOpOf(op).Some? ==> op == UnOpName(UnOpOf(op).value)
  {
  }

  /** Names accepted for an operator: its own name or its symbol. */
  predicate NamesOperator(op: string, b: BinOp) {
    op == BinOpName(b) || op == BinOpSymbol(b)
  }

  lemma LogicNamesOnly(op: string)
    requires BinOpOf(op).Some? && BinOpOf(op).value in {Equal, Nequal, Implies, And, Nand, Or, Nor, Xor, Xnor}
    ensures NamesOperator(op, BinOpOf(op).value)
  {
  }

  lemma BitwiseNamesOnly(op: string)
    requires BinOpOf(op).Some? && BinOpOf(op).value in {BvAnd, BvNand, BvOr, BvNor, BvXor, BvXnor}
    ensures NamesOperator(op, BinOpOf(op).value)
  {
  }

  lemma ArithmeticNamesOnly(op: string)
    requires BinOpOf(op).Some? && BinOpOf(op).value in {BvAdd, BvMul, BvSub, BvUdiv, BvUrem, BvSdiv, BvSrem, BvComp}
    ensures NamesOperator(op, BinOpOf(op).value)
  {
  }

  lemma SignedCompareNamesOnly(op: string)
    requires BinOpOf(op).Some? && BinOpOf(op).value in {BvSlt, BvSgt, BvSle, BvSge}
    ensures NamesOperator(op, BinOpOf(op).value)
  {
  }

  lemma UnsignedCompareNamesOnly(op: string)
    requires BinOpOf(op).Some? && BinOpOf(op).value in {BvUlt, BvUgt, BvUle, BvUge}
    ensures NamesOperator(op, BinOpOf(op).value)
  {
  }

  lemma ShiftConcatNamesOnly(op: string)
    requires BinOpOf(op).Some? && BinOpOf(op).value in {BvShl, BvShr, BvAshr, Concat}
    ensures NamesOperator(op, BinOpOf(op).value)
  {
  }

  /** The binary dispatch accepts nothing but an operator's name or its symbol. */
  lemma BinaryNamesOnly(op: string)
    ensures BinOpOf(op).Some? ==> NamesOperator(op, BinOpOf(op).value)
  {
    var r := BinOpOf(op);
    if r.Some? {
      if r.value in {Equal, Nequal, Implies, And, Nand, Or, Nor, Xor, Xnor} {
        LogicNamesOnly(op);
      } else if r.value in {BvAnd, BvNand, BvOr, BvNor, BvXor, BvXnor} {
        BitwiseNamesOnly(op);
      } else if r.value in {BvAdd, BvMul, BvSub, BvUdiv, BvUrem, BvSdiv, BvSrem, BvComp} {
        ArithmeticNamesOnly(op);
      } else if r.value in {BvSlt, BvSgt, BvSle, BvSge} {
        SignedCompareNamesOnly(op);
      } else if r.value in {BvUlt, BvUgt, BvUle, BvUge} {
        UnsignedCompareNamesOnly(op);
      } else {
        ShiftConcatNamesOnly(op);
      }
    }
  }

  /** Each alias pair names the same operator (logical connectives). */
  lemma LogicAliasesAgree()
    ensures BinOpOf("=") == BinOpOf("equal") == Some(Equal)
    ensures BinOpOf("!=") == BinOpOf("nequal") == Some(Nequal)
    ensures BinOpOf("=>") == BinOpOf("implies") == Some(Implies)
    ensures BinOpOf("&&") == BinOpOf("and") == Some(And)
    ensures BinOpOf("||") == BinOpOf("or") == Some(Or)
  {
  }

  /** Each alias pair names the same operator (bitwise operators). */
  lemma BitwiseAliasesAgree()
    ensures BinOpOf("&") == BinOpOf("bvand") == Some(BvAnd)
    ensures BinOpOf("|") == BinOpOf("bvor") == Some(BvOr)
    ensures BinOpOf("^") == BinOpOf("bvxor") == Some(BvXor)
  {
  }

  /** Each alias pair names the same operator (arithmetic). */
  lemma ArithmeticAliasesAgree()
    ensures BinOpOf("+") == BinOpOf("bvadd") == Some(BvAdd)
    ensures BinOpOf("*") == BinOpOf("bvmul") == Some(BvMul)
    ensures BinOpOf("-") == BinOpOf("bvsub") == Some(BvSub)
  {
  }

  /** Each alias pair names the same operator (bvcomp and concat). */
  lemma CompareConcatAliasesAgree()
    ensures BinOpOf("==") == BinOpOf("bvcomp") == Some(BvComp)
    ensures BinOpOf("++") == BinOpOf("concat") == Some(Concat)
  {
  }

  // --------------------------------------------------------------- translator

  /** `bvuint` takes an unsigned long: a negative `signed` value wraps modulo 2^64. */
  const ULONG_LIMIT: nat := 0x1_0000_0000_0000_0000

  function ToUnsignedLong(v: int): (r: nat)
    ensures r < ULONG_LIMIT && (r - v) % ULONG_LIMIT == 0
    requires -(ULONG_LIMIT as int) < v < ULONG_LIMIT
  {
    if v < 0 then (v + ULONG_LIMIT) as nat else v as nat
  }

  /** A translated term refers only to declared names and holds only representable constants. */
  predicate Declared(t: Term, predicates: set<string>, bitvectors: set<string>) {
    match t
    case Predicate(n) => n in predicates
    case Bitvector(n) => n in bitvectors && n !in predicates
    case BvUint(v, w) => v < ULONG_LIMIT && w < UINT_LIMIT
    case Unary(_, a) => Declared(a, predicates, bitvectors)
    case Binary(_, l, r) => Declared(l, predicates, bitvectors) && Declared(r, predicates, bitvectors)
  }

  /**
   * create_assertion: read `op`, then classify the node (binary, unary,
   * variable, integer, in that order); anything else is an unsupported operator.
   */
  function CreateAssertion(t: Tree, predicates: set<string>, bitvectors: set<string>): (r: Result<Term, Error>)
    ensures r.Ok? ==> Declared(r.value, predicates, bitvectors)
    ensures r.Ok? && r.value.Binary? ==> IsBinary(t)
    ensures r.Ok? && r.value.Unary? ==> !IsBinary(t) && IsUnary(t)
    ensures r.Ok? && (r.value.Predicate? || r.value.Bitvector? || r.value.BvUint?) ==> !IsBinary(t) && !IsUnary(t)
    decreases t, 1
  {
    match GetString(t, "op")
    case Err(e) => Err(e)
    case Ok(op) =>
      if IsBinary(t) then CreateBinaryAssertion(t, predicates, bitvectors)
      else if IsUnary(t) then CreateUnaryAssertion(t, predicates, bitvectors)
      else if op == "variable" then
        match GetString(t, "name")
        case Err(e) => Err(e)
        case Ok(name) =>
          if name in predicates then Ok(Predicate(name))
          else if name in bitvectors then Ok(Bitvector(name))
          else Err(UndefinedVariable(name))
      else if op == "integer" then
        match GetSigned(t, "value")
        case Err(e) => Err(e)
        case Ok(v) =>
          match GetUnsigned(t, "width")
          case Err(e) => Err(e)
          case Ok(w) => Ok(BvUint(ToUnsignedLong(v), w))
      else Err(UnsupportedOperator(op))
  }

  /** create_unary_assertion: translate the operand first, then dispatch on `op`. */
  function CreateUnaryAssertion(t: Tree, predicates: set<string>, bitvectors: set<string>): (r: Result<Term, Error>)
    ensures r.Ok? ==> r.value.Unary? && Declared(r.value, predicates, bitvectors)
    decreases t, 0
  {
    match GetString(t, "op")
    case Err(e) => Err(e)
    case Ok(op) =>
      match Child(t, "operand")
      case Err(e) => Err(e)
      case Ok(c) =>
        match CreateAssertion(c, predicates, bitvectors)
        case Err(e) => Err(e)
        case Ok(operand) =>
          match UnOpOf(op)
          case None => Err(UnsupportedOperator(op))
          case Some(u) => Ok(Unary(u, operand))
  }

  /** create_binary_assertion: translate `lhs`, then `rhs`, then dispatch on `op`. */
  function CreateBinaryAssertion(t: Tree, predicates: set<string>, bitvectors: set<string>): (r: Result<Term, Error>)
    ensures r.Ok? ==> r.value.Binary? && Declared(r.value, predicates, bitvectors)
    decreases t, 0
  {
    match GetString(t, "op")
    case Err(e) => Err(e)
    case Ok(op) =>
      match Child(t, "lhs")
      case Err(e) => Err(e)
      case Ok(lc) =>
        match CreateAssertion(lc, predicates, bitvectors)
        case Err(e) => Err(e)
        case Ok(lhs) =>
          match Child(t, "rhs")
          case Err(e) => Err(e)
          case Ok(rc) =>
            match CreateAssertion(rc, predicates, bitvectors)
            case Err(e) => Err(e)
            case Ok(rhs) =>
              match BinOpOf(op)
              case None => Err(UnsupportedOperator(op))
              case Some(b) => Ok(Binary(b, lhs, rhs))
  }
}
