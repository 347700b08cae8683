/** printtype and printnode: the tree rendered back to text. What printnode
    writes to standard output is here the string it returns. */
module Printer {
  import opened Syntax
  import opened NodeLists

  /** printtype: the spelling of a primitive type. */
  function PrintType(t: Type): (r: string)
    ensures |r| > 0
  {
    match t
    case Tint => "int"
  }

  /** printnode: a program is its statements one after the other, a statement
      its child followed by ";\n", a declaration its type, a space and its name,
      a type its spelling and a symbol its text. */
  function PrintNode(n: Node): string
    decreases n, 1
  {
    match n
    case Prog(ss) => PrintNodes(ss)
    case Stmt(b) => PrintNode(b) + ";\n"
    case Decl(t, x) => PrintNode(t) + " " + PrintNode(x)
    case TypeRef(t) => PrintType(t)
    case Sym(s) => s
  }

  /** eachnode(list, printnode): the renderings of the nodes of ss in order. */
  function PrintNodes(ss: seq<Node>): string
    decreases ss, 0
  {
    if ss == [] then "" else PrintNode(ss[0]) + PrintNodes(ss[1..])
  }

  /** eachnode with printnode is the rendering of the nodes in order. */
  lemma {:induction false} ConcatMapPrintNode(ss: seq<Node>)
    ensures ConcatMap(PrintNode, ss) == PrintNodes(ss)
    decreases ss
  {
    if ss != [] {
      ConcatMapPrintNode(ss[1..]);
    }
  }

  /** printnode on the program node parse_prog returns: eachnode walks the
      statement list and prints every statement in list order. */
  method PrintProgram(list: NodeList) returns (out: string)
    requires list.Valid()
    ensures out == PrintNode(Prog(list.Contents()))
  {
    out := list.EachNode(PrintNode);
    ConcatMapPrintNode(list.Contents());
  }
}
