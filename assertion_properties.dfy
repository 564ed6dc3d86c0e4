/**
 * Properties of the assertion translator: every declared term has a property
 * tree that translates back to it, and the order in which create_assertion
 * and create_binary_assertion inspect a node decides which error is reported.
 */
module AssertionProperties {
  import opened Wrappers
  import opened Decimal
  import opened Assertions

  const LONG_LIMIT: nat := 0x8000_0000_0000_0000

  function Leaf(s: string): (r: Tree)
    ensures r.data == s && r.children == []
  {
    Tree(s, [])
  }

  /** The signed value whose conversion to unsigned long is `v`. */
  function AsSigned(v: nat): (r: int)
    requires v < ULONG_LIMIT
    ensures -(LONG_LIMIT as int) <= r < LONG_LIMIT
    ensures ToUnsignedLong(r) == v
  {
    if v < LONG_LIMIT then v else v - ULONG_LIMIT
  }

  /** The JSON tree a client sends for a term, with the keys the translator reads. */
  function Encode(t: Term): Tree {
    match t
    case Predicate(n) => Tree("", [("op", Leaf("variable")), ("name", Leaf(n))])
    case Bitvector(n) => Tree("", [("op", Leaf("variable")), ("name", Leaf(n))])
    case BvUint(v, w) =>
      var value := if v < ULONG_LIMIT then SignedToDecimal(AsSigned(v)) else NatToDecimal(v);
      Tree("", [("op", Leaf("integer")), ("value", Leaf(value)), ("width", Leaf(NatToDecimal(w)))])
    case Unary(u, a) => Tree("", [("op", Leaf(UnOpName(u))), ("operand", Encode(a))])
    case Binary(b, l, r) => Tree("", [("op", Leaf(BinOpName(b))), ("lhs", Encode(l)), ("rhs", Encode(r))])
  }

  /** Every integer constant is the conversion of a value `signed` can hold. */
  predicate SignedConstants(t: Term) {
    match t
    case BvUint(v, _) => v < INT_LIMIT || ULONG_LIMIT - INT_LIMIT <= v
    case Unary(_, a) => SignedConstants(a)
    case Binary(_, l, r) => SignedConstants(l) && SignedConstants(r)
    case _ => true
  }

  /** The child a key selects is its first occurrence. */
  lemma KeyAt(t: Tree, i: nat, key: string)
    requires i < |t.children| && t.children[i].0 == key
    requires forall j :: 0 <= j < i ==> t.children[j].0 != key
    ensures HasKey(t, key)
    ensures Child(t, key) == Ok(t.children[i].1)
    ensures GetString(t, key) == Ok(t.children[i].1.data)
  {
  }

  lemma KeyAbsent(t: Tree, key: string)
    requires forall j :: 0 <= j < |t.children| ==> t.children[j].0 != key
    ensures !HasKey(t, key)
  {
  }

  /**
   * A node with both `lhs` and `rhs` is a binary operation whatever else it
   * holds; its children are translated, left before right, before its
   * operator is looked up, so a bad child is reported ahead of a bad operator.
   */
  lemma BinaryNode(t: Tree, predicates: set<string>, bitvectors: set<string>)
    requires HasKey(t, "op") && IsBinary(t)
    ensures
      var op := GetString(t, "op").value;
      var l := CreateAssertion(Child(t, "lhs").value, predicates, bitvectors);
      var r := CreateAssertion(Child(t, "rhs").value, predicates, bitvectors);
      CreateAssertion(t, predicates, bitvectors) ==
        if l.Err? then l
        else if r.Err? then r
        else if BinOpOf(op).None? then Err(UnsupportedOperator(op))
        else Ok(Binary(BinOpOf(op).value, l.value, r.value))
  {
  }

  /** A node with an `operand` but not both `lhs` and `rhs` is a unary operation. */
  lemma UnaryNode(t: Tree, predicates: set<string>, bitvectors: set<string>)
    requires HasKey(t, "op") && !IsBinary(t) && IsUnary(t)
    ensures
      var op := GetString(t, "op").value;
      var a := CreateAssertion(Child(t, "operand").value, predicates, bitvectors);
      CreateAssertion(t, predicates, bitvectors) ==
        if a.Err? then a
        else if UnOpOf(op).None? then Err(UnsupportedOperator(op))
        else Ok(Unary(UnOpOf(op).value, a.value))
  {
  }

  /** A node without `op` is rejected before anything else is looked at. */
  lemma MissingOperator(t: Tree, predicates: set<string>, bitvectors: set<string>)
    requires !HasKey(t, "op")
    ensures CreateAssertion(t, predicates, bitvectors) == Err(BadPath("op"))
  {
  }

  /**
   * A variable node resolves among the predicates first, then among the
   * bit-vectors; a name declared as neither is an undefined variable.
   */
  lemma VariableNode(t: Tree, n: string, predicates: set<string>, bitvectors: set<string>)
    requires !IsBinary(t) && !IsUnary(t)
    requires GetString(t, "op") == Ok("variable") && GetString(t, "name") == Ok(n)
    ensures CreateAssertion(t, predicates, bitvectors) ==
      if n in predicates then Ok(Predicate(n))
      else if n in bitvectors then Ok(Bitvector(n))
      else Err(UndefinedVariable(n))
  {
  }

  /** An integer node is the constant `value` converted to unsigned long, of the given width. */
  lemma IntegerNode(t: Tree, v: int, w: nat, predicates: set<string>, bitvectors: set<string>)
    requires !IsBinary(t) && !IsUnary(t)
    requires GetString(t, "op") == Ok("integer")
    requires GetSigned(t, "value") == Ok(v) && GetUnsigned(t, "width") == Ok(w)
    ensures CreateAssertion(t, predicates, bitvectors) == Ok(BvUint(ToUnsignedLong(v), w))
  {
  }

  /** A leaf whose operator is neither `variable` nor `integer` is unsupported. */
  lemma UnknownLeaf(t: Tree, op: string, predicates: set<string>, bitvectors: set<string>)
    requires !IsBinary(t) && !IsUnary(t)
    requires GetString(t, "op") == Ok(op) && op != "variable" && op != "integer"
    ensures CreateAssertion(t, predicates, bitvectors) == Err(UnsupportedOperator(op))
  {
  }

  // The encoding's key layout, one node shape at a time.

  lemma VariableShape(n: string)
    ensures var e := Encode(Predicate(n));
      !IsBinary(e) && !IsUnary(e) && GetString(e, "op") == Ok("variable") && GetString(e, "name") == Ok(n)
  {
    var e := Encode(Predicate(n));
    KeyAbsent(e, "lhs");
    KeyAbsent(e, "operand");
    KeyAt(e, 0, "op");
    KeyAt(e, 1, "name");
  }

  lemma IntegerShape(value: string, width: string)
    ensures var e := Tree("", [("op", Leaf("integer")), ("value", Leaf(value)), ("width", Leaf(width))]);
      !IsBinary(e) && !IsUnary(e) && GetString(e, "op") == Ok("integer") &&
      GetString(e, "value") == Ok(value) && GetString(e, "width") == Ok(width)
  {
    var e := Tree("", [("op", Leaf("integer")), ("value", Leaf(value)), ("width", Leaf(width))]);
    KeyAbsent(e, "lhs");
    KeyAbsent(e, "operand");
    KeyAt(e, 0, "op");
    KeyAt(e, 1, "value");
    KeyAt(e, 2, "width");
  }

  lemma UnaryShape(op: string, a: Tree)
    ensures var e := Tree("", [("op", Leaf(op)), ("operand", a)]);
      HasKey(e, "op") && !IsBinary(e) && IsUnary(e) && GetString(e, "op").value == op &&
      Child(e, "operand").value == a
  {
    var e := Tree("", [("op", Leaf(op)), ("operand", a)]);
    KeyAbsent(e, "lhs");
    KeyAt(e, 0, "op");
    KeyAt(e, 1, "operand");
  }

  lemma VariableRoundTrip(n: string, predicates: set<string>, bitvectors: set<string>)
    requires n in predicates || n in bitvectors
    ensures CreateAssertion(Encode(Predicate(n)), predicates, bitvectors)
      == if n in predicates then Ok(Predicate(n)) else Ok(Bitvector(n))
  {
    VariableShape(n);
    VariableNode(Encode(Predicate(n)), n, predicates, bitvectors);
  }

  lemma IntegerRoundTrip(v: nat, w: nat, predicates: set<string>, bitvectors: set<string>)
    requires v < INT_LIMIT || ULONG_LIMIT - INT_LIMIT <= v < ULONG_LIMIT
    requires w < UINT_LIMIT
    ensures CreateAssertion(Encode(BvUint(v, w)), predicates, bitvectors) == Ok(BvUint(v, w))
  {
    var value, width := SignedToDecimal(AsSigned(v)), NatToDecimal(w);
    var e := Tree("", [("op", Leaf("integer")), ("value", Leaf(value)), ("width", Leaf(width))]);
    assert Encode(BvUint(v, w)) == e;
    IntegerShape(value, width);
    ParseSignedRoundTrip(AsSigned(v));
    ParseUnsignedOfDecimal(w);
    IntegerNode(e, AsSigned(v), w, predicates, bitvectors);
  }

  lemma UnaryRoundTrip(u: UnOp, a: Term, predicates: set<string>, bitvectors: set<string>)
    requires CreateAssertion(Encode(a), predicates, bitvectors) == Ok(a)
    ensures CreateAssertion(Encode(Unary(u, a)), predicates, bitvectors) == Ok(Unary(u, a))
  {
    var e := Tree("", [("op", Leaf(UnOpName(u))), ("operand", Encode(a))]);
    UnaryShape(UnOpName(u), Encode(a));
    UnaryNode(e, predicates, bitvectors);
    UnaryNamesInverse(u);
  }

  /** The keys of a binary node as the encoding lays it out. */
  lemma BinaryShape(op: string, l: Tree, r: Tree)
    ensures var e := Tree("", [("op", Leaf(op)), ("lhs", l), ("rhs", r)]);
      HasKey(e, "op") && IsBinary(e) && GetString(e, "op").value == op &&
      Child(e, "lhs").value == l && Child(e, "rhs").value == r
  {
    var e := Tree("", [("op", Leaf(op)), ("lhs", l), ("rhs", r)]);
    KeyAt(e, 0, "op");
    KeyAt(e, 1, "lhs");
    KeyAt(e, 2, "rhs");
  }

  /** A binary node built from a known operator name and two round-tripping children. */
  lemma BinaryTreeRoundTrip(op: string, b: BinOp, l: Term, r: Term, predicates: set<string>, bitvectors: set<string>)
    requires BinOpOf(op) == Some(b)
    requires CreateAssertion(Encode(l), predicates, bitvectors) == Ok(l)
    requires CreateAssertion(Encode(r), predicates, bitvectors) == Ok(r)
    ensures CreateAssertion(Tree("", [("op", Leaf(op)), ("lhs", Encode(l)), ("rhs", Encode(r))]), predicates, bitvectors)
      == Ok(Binary(b, l, r))
  {
    BinaryShape(op, Encode(l), Encode(r));
    BinaryNode(Tree("", [("op", Leaf(op)), ("lhs", Encode(l)), ("rhs", Encode(r))]), predicates, bitvectors);
  }

  lemma BinaryRoundTrip(b: BinOp, l: Term, r: Term, predicates: set<string>, bitvectors: set<string>)
    requires CreateAssertion(Encode(l), predicates, bitvectors) == Ok(l)
    requires CreateAssertion(Encode(r), predicates, bitvectors) == Ok(r)
    ensures CreateAssertion(Encode(Binary(b, l, r)), predicates, bitvectors) == Ok(Binary(b, l, r))
  {
    BinaryNamesInverse(b);
    BinaryTreeRoundTrip(BinOpName(b), b, l, r, predicates, bitvectors);
  }

  /**
   * Translation inverts the encoding: a term over declared names whose
   * constants fit the `signed` and `unsigned` reads comes back unchanged.
   */
  lemma {:induction false} EncodeRoundTrip(t: Term, predicates: set<string>, bitvectors: set<string>)
    requires Declared(t, predicates, bitvectors) && SignedConstants(t)
    ensures CreateAssertion(Encode(t), predicates, bitvectors) == Ok(t)
  {
    match t
    case Predicate(n) => VariableRoundTrip(n, predicates, bitvectors);
    case Bitvector(n) => VariableRoundTrip(n, predicates, bitvectors);
    case BvUint(v, w) => IntegerRoundTrip(v, w, predicates, bitvectors);
    case Unary(u, a) =>
      EncodeRoundTrip(a, predicates, bitvectors);
      UnaryRoundTrip(u, a, predicates, bitvectors);
    case Binary(b, l, r) =>
      EncodeRoundTrip(l, predicates, bitvectors);
      EncodeRoundTrip(r, predicates, bitvectors);
      BinaryRoundTrip(b, l, r, predicates, bitvectors);
  }

  /** An operator name missing from the binary table is rejected once both children translate. */
  lemma UnknownBinaryOperator(op: string, l: Term, r: Term, predicates: set<string>, bitvectors: set<string>)
    requires BinOpOf(op).None?
    requires CreateAssertion(Encode(l), predicates, bitvectors) == Ok(l)
    requires CreateAssertion(Encode(r), predicates, bitvectors) == Ok(r)
    ensures CreateAssertion(Tree("", [("op", Leaf(op)), ("lhs", Encode(l)), ("rhs", Encode(r))]), predicates, bitvectors)
      == Err(UnsupportedOperator(op))
  {
    BinaryShape(op, Encode(l), Encode(r));
    BinaryNode(Tree("", [("op", Leaf(op)), ("lhs", Encode(l)), ("rhs", Encode(r))]), predicates, bitvectors);
  }

  lemma NotIsUnaryOnly()
    ensures UnOpOf("not") == Some(Not) && BinOpOf("not") == None
  {
  }

  /**
   * Binary takes precedence: the unary operator `not` on a node that also has
   * `lhs` and `rhs` is looked up in the binary table and rejected.
   */
  lemma UnaryNameOnBinaryNode(l: Term, r: Term, predicates: set<string>, bitvectors: set<string>)
    requires CreateAssertion(Encode(l), predicates, bitvectors) == Ok(l)
    requires CreateAssertion(Encode(r), predicates, bitvectors) == Ok(r)
    ensures CreateAssertion(Tree("", [("op", Leaf("not")), ("lhs", Encode(l)), ("rhs", Encode(r))]), predicates, bitvectors)
      == Err(UnsupportedOperator("not"))
  {
    NotIsUnaryOnly();
    UnknownBinaryOperator("not", l, r, predicates, bitvectors);
  }

  /** The integer -1 becomes the all-ones constant 2^64 - 1. */
  lemma NegativeIntegerWraps(predicates: set<string>, bitvectors: set<string>)
    ensures CreateAssertion(Tree("", [("op", Leaf("integer")), ("value", Leaf("-1")), ("width", Leaf("8"))]), predicates, bitvectors)
      == Ok(BvUint(ULONG_LIMIT - 1, 8))
  {
    IntegerShape("-1", "8");
    ParseSignedRoundTrip(-1);
    ParseUnsignedOfDecimal(8);
    IntegerNode(Tree("", [("op", Leaf("integer")), ("value", Leaf("-1")), ("width", Leaf("8"))]), -1, 8, predicates, bitvectors);
  }
}
