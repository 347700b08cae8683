/** parse_type, parse_name, parse_decl, parse_stmt and parse_prog as methods
    that read the input stream. Each is proved to do what the function of the
    same name in module Grammar says of the text from the stream's position. */
module Parser {
  import opened Chars
  import opened Errors
  import opened Syntax
  import opened Cursor
  import opened NodeLists
  import Grammar

  /** parse_type: the identifier must be `int`. */
  method ParseType(inp: Input) returns (r: Result<Node>)
    requires inp.Valid()
    modifies inp
    ensures inp.Valid()
    ensures Agrees(r, Grammar.ParseType(inp.text, old(inp.pos)), inp.pos)
  {
    var s := inp.ShiftName();
    if s.Err? {
      return Err(s.err);
    }
    if s.value == "int" {
      r := Ok(TypeRef(Tint));
    } else {
      r := Err(UnknownType(s.value));
    }
  }

  /** parse_name: any identifier becomes a symbol node. */
  method ParseName(inp: Input) returns (r: Result<Node>)
    requires inp.Valid()
    modifies inp
    ensures inp.Valid()
    ensures Agrees(r, Grammar.ParseName(inp.text, old(inp.pos)), inp.pos)
  {
    var s :- inp.ShiftName();
    r := Ok(Sym(s));
  }

  /** parse_decl: a type, whitespace, then a name. */
  method ParseDecl(inp: Input) returns (r: Result<Node>)
    requires inp.Valid()
    modifies inp
    ensures inp.Valid()
    ensures Agrees(r, Grammar.ParseDecl(inp.text, old(inp.pos)), inp.pos)
  {
    var typ :- ParseType(inp);
    inp.Trim();
    var name :- ParseName(inp);
    r := Ok(Decl(typ, name));
  }

  /** parse_stmt: a declaration, optional whitespace, then `;`. */
  method ParseStmt(inp: Input) returns (r: Result<Node>)
    requires inp.Valid()
    modifies inp
    ensures inp.Valid()
    ensures Agrees(r, Grammar.ParseStmt(inp.text, old(inp.pos)), inp.pos)
  {
    var d :- ParseDecl(inp);
    inp.Trim();
    var e :- inp.ExpectC(';');
    r := Ok(Stmt(d));
  }

  /** One turn of the loop of parse_prog without the append: trim,
      parse_stmt, trim. */
  method NextStmt(inp: Input) returns (r: Result<Node>)
    requires inp.Valid()
    modifies inp
    ensures inp.Valid()
    ensures Agrees(r, Grammar.ParseStep(inp.text, old(inp.pos)), inp.pos)
  {
    inp.Trim();
    r := ParseStmt(inp);
    if r.Ok? {
      inp.Trim();
    }
  }

  /** mknode for the statement's list cell, then append. */
  method AppendStmt(list: NodeList, st: Node)
    requires list.Valid()
    modifies list.Repr
    ensures list.Valid() && fresh(list.Repr - old(list.Repr))
    ensures list.Contents() == old(list.Contents()) + [st]
  {
    var cell := new NodeCell(st);
    list.Append(cell);
  }

  /** One turn of the loop of parse_prog: trim, append the next statement to
      the list, trim. */
  method ParseNext(inp: Input, list: NodeList) returns (r: Result<()>)
    requires inp.Valid() && list.Valid() && inp !in list.Repr
    modifies inp, list.Repr
    ensures inp.Valid()
    ensures r.Ok? <==> Grammar.ParseStep(inp.text, old(inp.pos)).Ok?
    ensures r.Ok? ==> && list.Valid() && fresh(list.Repr - old(list.Repr))
                      && list.Contents() == old(list.Contents()) + [Grammar.ParseStep(inp.text, old(inp.pos)).value.0]
                      && inp.pos == Grammar.ParseStep(inp.text, old(inp.pos)).value.1
    ensures r.Err? ==> r.err == Grammar.ParseStep(inp.text, old(inp.pos)).err
  {
    var st := NextStmt(inp);
    if st.Err? {
      return Err(st.err);
    }
    AppendStmt(list, st.value);
    r := Ok(());
  }

  /** parse_prog: while the input is not exhausted, one more statement. On
      success the list holds the statements in source order and the input is
      used up. */
  method ParseProg(inp: Input) returns (r: Result<NodeList>)
    requires inp.Valid()
    modifies inp
    ensures inp.Valid()
    ensures r.Ok? <==> Grammar.ParseStmts(inp.text, old(inp.pos)).Ok?
    ensures r.Ok? ==> && fresh(r.value.Repr) && r.value.Valid()
                      && r.value.Contents() == Grammar.ParseStmts(inp.text, old(inp.pos)).value
                      && inp.pos == |inp.text|
    ensures r.Err? ==> r.err == Grammar.ParseStmts(inp.text, old(inp.pos)).err
  {
    ghost var start := inp.pos;
    var list := new NodeList();
    ghost var done: seq<Node> := [];
    Grammar.ParseStmtsLoopStart(inp.text, start);
    while true
      invariant inp.Valid() && list.Valid() && fresh(list.Repr) && inp !in list.Repr
      invariant list.Contents() == done
      invariant Grammar.ParseStmts(inp.text, start) == Grammar.Prepend(done, Grammar.ParseStmts(inp.text, inp.pos))
      decreases |inp.text| - inp.pos
    {
      var c := inp.Peek();
      if c == Eof {
        break;
      }
      ghost var before := inp.pos;
      var e := ParseNext(inp, list);
      if e.Err? {
        Grammar.ParseStmtsLoopErr(inp.text, start, done, before);
        return Err(e.err);
      }
      Grammar.ParseStmtsLoop(inp.text, start, done, before);
      done := list.Contents();
    }
    Grammar.ParseStmtsLoopEnd(inp.text, start, done);
    r := Ok(list);
  }

  /** parse: opens the stream at the first character of the input and runs
      parse_prog. The program node it returns is the list of statements. */
  method Parse(s: seq<char>) returns (r: Result<NodeList>)
    ensures r.Ok? <==> Grammar.ParseProgram(s).Ok?
    ensures r.Ok? ==> && fresh(r.value.Repr) && r.value.Valid()
                      && Prog(r.value.Contents()) == Grammar.ParseProgram(s).value
    ensures r.Err? ==> r.err == Grammar.ParseProgram(s).err
  {
    var inp := new Input(s);
    r := ParseProg(inp);
  }
}
