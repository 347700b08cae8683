/** The syntax tree. Node mirrors the node kinds of the C program (Nprog, Nstmt,
    Ndecl, Ntype, Nsym); each variant holds exactly the slots its kind uses. The
    statement list of a program is the `next` chain in the C program; as a value
    it is the sequence `stmts`. */
module Syntax {
  import opened Chars

  /** Size of the buffer an identifier is read into, terminator included. */
  const BUFSIZE: nat := 1000

  /** The longest identifier that fits the buffer next to its terminating NUL. */
  const MaxNameLen: nat := BUFSIZE - 1

  /** The primitive types; the C enum has only Tint. */
  datatype Type = Tint

  datatype Node =
    | Prog(stmts: seq<Node>)
    | Stmt(body: Node)
    | Decl(typ: Node, name: Node)
    | TypeRef(t: Type)
    | Sym(s: string)

  /** s matches [A-Za-z_][A-Za-z0-9_]*. */
  predicate IsName(s: string) {
    |s| >= 1 && IsNameStart(s[0]) && forall j :: 0 <= j < |s| ==> IsNameChar(s[j])
  }

  /** An identifier that shiftname can return: a name that fits the buffer. */
  predicate ValidName(s: string) {
    IsName(s) && |s| <= MaxNameLen
  }

  /** The only statement shape the parser builds: `int name`. */
  predicate WellFormedStmt(n: Node) {
    && n.Stmt?
    && n.body.Decl?
    && n.body.typ == TypeRef(Tint)
    && n.body.name.Sym?
    && ValidName(n.body.name.s)
  }

  predicate WellFormedStmts(ss: seq<Node>) {
    forall j :: 0 <= j < |ss| ==> WellFormedStmt(ss[j])
  }

  /** The only program shape the parser builds: a list of well-formed statements. */
  predicate WellFormedProg(p: Node) {
    p.Prog? && WellFormedStmts(p.stmts)
  }
}
