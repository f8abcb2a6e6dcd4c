/** The lossless concrete-syntax parse of a script (lib/sphinx_exhibit/_parser.py).
    The grammar driver is a parameter: it turns a string into a concrete syntax
    tree or fails with a parse error. The only logic of the module itself is the
    newline padding, the Leaf-to-Node wrapping and the undoing of the padding. */
module LosslessParser {
  import opened Wrappers
  import opened Text

  /** Grammar symbols of interior nodes that the model needs to tell apart. */
  datatype Symbol = FileInput | SimpleStmt | OtherSymbol(number: int)

  /** Token types of leaves that the model needs to tell apart. */
  datatype TokenType = StringToken | EndMarker | OtherToken(number: int)

  /** A concrete syntax tree: each leaf keeps the whitespace and comments
      before it and the (1-based) line its token starts on. */
  datatype Cst =
    | Leaf(tokenType: TokenType, prefix: string, value: string, lineno: int)
    | Node(symbol: Symbol, children: seq<Cst>)

  datatype ParseError = ParseError(message: string)

  /** `str(tree)`: the concatenation of every leaf's prefix and value, in order. */
  function Str(t: Cst): string
    decreases t, 1
  {
    match t
    case Leaf(_, prefix, value, _) => prefix + value
    case Node(_, children) => StrAll(children)
  }

  function StrAll(ts: seq<Cst>): string
    decreases ts, 0
  {
    if ts == [] then "" else Str(ts[0]) + StrAll(ts[1..])
  }

  /** Every interior node has at least one child, as the grammar driver builds them. */
  ghost predicate WellFormed(t: Cst) {
    match t
    case Leaf(_, _, _, _) => true
    case Node(_, children) =>
      |children| > 0 && forall i :: 0 <= i < |children| ==> WellFormed(children[i])
  }

  ghost predicate AllWellFormed(ts: seq<Cst>) {
    forall i :: 0 <= i < |ts| ==> WellFormed(ts[i])
  }

  /** `node.prefix`: the prefix of the first leaf. */
  function Prefix(t: Cst): string {
    match t
    case Leaf(_, prefix, _, _) => prefix
    case Node(_, children) => if children == [] then "" else Prefix(children[0])
  }

  /** The text of a tree after its prefix. */
  function Body(t: Cst): string {
    match t
    case Leaf(_, _, value, _) => value
    case Node(_, children) => if children == [] then "" else Body(children[0]) + StrAll(children[1..])
  }

  /** `node.prefix = p`: replaces the prefix of the first leaf. */
  function WithPrefix(t: Cst, p: string): (r: Cst)
    ensures WellFormed(t) ==> WellFormed(r)
    ensures r.Node? <==> t.Node?
    ensures t.Node? ==> r.symbol == t.symbol && |r.children| == |t.children|
    ensures t.Node? && t.children != [] ==> r.children[1..] == t.children[1..]
    ensures t.Node? && t.children != [] && t.children[0].Leaf? ==>
              r.children[0].Leaf? && r.children[0].tokenType == t.children[0].tokenType
              && r.children[0].value == t.children[0].value
  {
    match t
    case Leaf(_, _, _, _) => t.(prefix := p)
    case Node(symbol, children) =>
      if children == [] then t
      else
        var r := Node(symbol, [WithPrefix(children[0], p)] + children[1..]);
        assert forall i :: 1 <= i < |children| ==> r.children[i] == children[i];
        r
  }

  /** `node.get_lineno()`: the line of the first leaf. */
  function Lineno(t: Cst): int
    requires WellFormed(t)
  {
    match t
    case Leaf(_, _, _, lineno) => lineno
    case Node(_, children) => Lineno(children[0])
  }

  /** `"".join(leaf.value for leaf in node.leaves())`. */
  function LeafValues(t: Cst): string
    decreases t, 1
  {
    match t
    case Leaf(_, _, value, _) => value
    case Node(_, children) => LeafValuesAll(children)
  }

  function LeafValuesAll(ts: seq<Cst>): string
    decreases ts, 0
  {
    if ts == [] then "" else LeafValues(ts[0]) + LeafValuesAll(ts[1..])
  }

  /** The text of a tree is its prefix followed by its body. */
  lemma {:induction false} StrIsPrefixBody(t: Cst)
    ensures Str(t) == Prefix(t) + Body(t)
  {
    match t
    case Leaf(_, _, _, _) =>
    case Node(_, children) =>
      if children != [] {
        StrIsPrefixBody(children[0]);
      }
  }

  /** Setting the prefix of a well-formed tree sets what `node.prefix` reads. */
  lemma {:induction false} WithPrefixPrefix(t: Cst, p: string)
    requires WellFormed(t)
    ensures Prefix(WithPrefix(t, p)) == p
  {
    match t
    case Leaf(_, _, _, _) =>
    case Node(symbol, children) =>
      WithPrefixPrefix(children[0], p);
  }

  /** Setting the prefix of a well-formed tree changes nothing but its prefix. */
  lemma {:induction false} WithPrefixFacts(t: Cst, p: string)
    requires WellFormed(t)
    ensures Prefix(WithPrefix(t, p)) == p
    ensures Body(WithPrefix(t, p)) == Body(t)
    ensures Lineno(WithPrefix(t, p)) == Lineno(t)
    ensures LeafValues(WithPrefix(t, p)) == LeafValues(t)
  {
    match t
    case Leaf(_, _, _, _) =>
    case Node(symbol, children) =>
      WithPrefixFacts(children[0], p);
      var r := WithPrefix(t, p);
      assert r.children[1..] == children[1..];
      assert LeafValuesAll(r.children) == LeafValues(r.children[0]) + LeafValuesAll(children[1..]);
      assert LeafValuesAll(children) == LeafValues(children[0]) + LeafValuesAll(children[1..]);
  }

  /** The grammar driver never loses or invents text. */
  ghost predicate Lossless(driver: string -> Result<Cst, ParseError>) {
    forall s :: driver(s).Success? ==> Str(driver(s).value) == s
  }

  /** A parsed tree together with the `added_newline` attribute set on it;
      `None` stands for a tree on which the attribute was never set. */
  datatype Tree = Tree(root: Cst, addedNewline: Option<bool>)

  /** The text handed to the driver: `code`, with "\n" appended when it does not already end with one. */
  function Padded(code: string): (p: string)
    ensures EndsWith(p, "\n")
    ensures EndsWith(code, "\n") ==> p == code
    ensures !EndsWith(code, "\n") ==> p[..|p| - 1] == code && |p| == |code| + 1
  {
    if EndsWith(code, "\n") then code else code + "\n"
  }

  /** `_parser.parse`. */
  function Parse(code: string, driver: string -> Result<Cst, ParseError>): (r: Result<Tree, ParseError>)
    ensures r.Failure? <==> driver(Padded(code)).Failure?
    ensures r.Success? ==> r.value.root.Node?
    ensures r.Success? ==> r.value.addedNewline == Some(!EndsWith(code, "\n"))
    ensures r.Success? && driver(Padded(code)).value.Leaf? ==>
              r.value.root == Node(FileInput, [driver(Padded(code)).value])
    ensures r.Success? && driver(Padded(code)).value.Node? ==>
              r.value.root == driver(Padded(code)).value
  {
    match driver(Padded(code))
    case Failure(e) => Failure(e)
    case Success(t) =>
      var root := if t.Leaf? then Node(FileInput, [t]) else t;
      Success(Tree(root, Some(!EndsWith(code, "\n"))))
  }

  /** `_parser.regenerate`. */
  function Regenerate(tree: Tree): (s: string)
    ensures tree.addedNewline == Some(true) && Str(tree.root) != "" ==>
              s == Str(tree.root)[..|Str(tree.root)| - 1]
    ensures tree.addedNewline != Some(true) ==> s == Str(tree.root)
  {
    var text := Str(tree.root);
    if tree.addedNewline == Some(true) then
      (if text == "" then "" else text[..|text| - 1])
    else text
  }

  /** Wrapping a leaf in a `file_input` node does not change the text. */
  lemma WrapKeepsText(t: Cst)
    ensures Str(Node(FileInput, [t])) == Str(t)
  {
    assert [t][1..] == [];
    assert StrAll([t]) == Str(t) + StrAll([]);
  }

  /** Round trip: with a lossless driver, regenerating a parsed tree gives back the code. */
  lemma {:induction false} RegenerateParse(code: string, driver: string -> Result<Cst, ParseError>)
    requires Lossless(driver)
    requires Parse(code, driver).Success?
    ensures Regenerate(Parse(code, driver).value) == code
  {
    var t := driver(Padded(code)).value;
    assert Str(t) == Padded(code);
    if t.Leaf? {
      WrapKeepsText(t);
    }
  }
}
