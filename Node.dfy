/** The node record of the red-black tree (arbolRojinegroProject/utils/Nodo.java):
    a key, an integer colour and three links. The links are nullable: a freshly
    built node has no parent and no children. */
module Utils {

  /** Colour constants of the source (COLOR_NEGRO and COLOR_ROJO). */
  const BLACK: int := 0
  const RED: int := 1

  /** The two colours that setColor accepts. */
  predicate ValidColor(c: int) {
    c == BLACK || c == RED
  }

  /** The one error the node can signal: an out-of-range colour (IllegalArgumentException). */
  datatype ColorError = InvalidColor

  /** Completion of a validated setter: it either succeeds or fails with an error. */
  datatype Outcome = Pass | Fail(error: ColorError)

  class Node {
    var data: int
    var father: Node?
    var left: Node?
    var right: Node?
    var color: int

    /** Nodo(): key 0, black, no links. */
    constructor ()
      ensures data == 0 && color == BLACK
      ensures father == null && left == null && right == null
    {
      data := 0;
      father := null;
      left := null;
      right := null;
      color := BLACK;
    }

    /** Nodo(data): the given key, red, no links. */
    constructor WithData(data: int)
      ensures this.data == data && color == RED
      ensures father == null && left == null && right == null
    {
      this.data := data;
      father := null;
      left := null;
      right := null;
      color := RED;
    }

    /** Nodo(data, color): stores the colour as given, without validating it. */
    constructor WithColor(data: int, color: int)
      ensures this.data == data && this.color == color
      ensures father == null && left == null && right == null
    {
      this.data := data;
      father := null;
      left := null;
      right := null;
      this.color := color;
    }

    /** setColor: rejects anything but RED or BLACK before touching the node. */
    method SetColor(c: int) returns (outcome: Outcome)
      modifies this
      ensures outcome == Fail(InvalidColor) <==> !ValidColor(c)
      ensures outcome.Pass? ==> color == c
      ensures outcome.Fail? ==> color == old(color)
      ensures data == old(data) && father == old(father)
      ensures left == old(left) && right == old(right)
    {
      if c != RED && c != BLACK {
        return Fail(InvalidColor);
      }
      color := c;
      outcome := Pass;
    }

    /** esRojo: a red node has a valid colour and is not black. */
    predicate IsRed(): (r: bool)
      reads this
      ensures r ==> ValidColor(color) && !IsBlack()
    {
      color == RED
    }

    /** esNegro: a black node has a valid colour, the one that is not red. */
    predicate IsBlack(): (b: bool)
      reads this
      ensures b ==> ValidColor(color) && color != RED
    {
      color == BLACK
    }

    /** esHoja: no child links at all (only a node built and never linked); such
        a node does not have two children. */
    predicate IsLeaf(): (r: bool)
      reads this
      ensures r ==> !HasTwoChildren()
    {
      left == null && right == null
    }

    /** tieneDosHijos: both child links are set (always so for a node linked into
        a tree, see NoNullChildren). */
    predicate HasTwoChildren()
      reads this
    {
      left != null && right != null
    }

    /** getAbuelo: null without a father, otherwise the father's father (itself
        null for a child of the root). */
    function Grandparent(): (g: Node?)
      reads this, father
      ensures father == null ==> g == null
      ensures g != null ==> father != null && g == father.father
    {
      if father != null then father.father else null
    }

    /** getHermano: the other child of the parent, or null without a parent. When
        the node is one of its father's two distinct children, the result is the
        other one. */
    function Sibling(): (s: Node?)
      reads this, father
      ensures father == null ==> s == null
      ensures father != null && father.left != father.right && (this == father.left || this == father.right) ==>
        s != this && (s == father.left || s == father.right)
    {
      if father == null then null
      else if this == father.left then father.right
      else father.left
    }

    /** getTio: the grandparent's child on the side opposite the parent, which is
        the father's getHermano. */
    function Uncle(): (u: Node?)
      reads this, father, Grandparent()
      ensures u == (if father == null then null else father.Sibling())
    {
      var g := Grandparent();
      if g == null then null
      else if father == g.left then g.right
      else g.left
    }

    /** equals: compares key and colour only; the links play no part. The
        identity shortcut never changes the answer. Java's getClass() test is
        left out: Node has no subclasses, so it only excludes null. */
    predicate Equals(other: Node?): (r: bool)
      reads this, other
      ensures r <==> other != null && data == other.data && color == other.color
    {
      this == other || (other != null && data == other.data && color == other.color)
    }
  }

  /** esRojo and esNegro: exactly one holds precisely when the colour is one of
      the two valid ones; a colour stored unvalidated makes both false. */
  lemma ColorsExclusive(n: Node)
    ensures ValidColor(n.color) <==> (n.IsRed() != n.IsBlack())
    ensures !ValidColor(n.color) ==> !n.IsRed() && !n.IsBlack()
  {
  }

  /** esHoja and tieneDosHijos never hold together, and a node with exactly one
      child link satisfies neither. */
  lemma ChildLinks(n: Node)
    ensures !(n.IsLeaf() && n.HasTwoChildren())
    ensures (n.left == null) != (n.right == null) ==> !n.IsLeaf() && !n.HasTwoChildren()
  {
  }

  /** equals is reflexive and symmetric, and two distinct nodes are equal
      exactly when key and colour agree, whatever their links. */
  lemma EqualsProperties(a: Node, b: Node)
    ensures a.Equals(a)
    ensures a.Equals(b) <==> b.Equals(a)
    ensures a != b ==> (a.Equals(b) <==> a.data == b.data && a.color == b.color)
    ensures !a.Equals(null)
  {
  }
}
