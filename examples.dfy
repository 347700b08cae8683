/** Worked inputs: what the front end does with a few small programs. */
module Examples {
  import opened Chars
  import opened Errors
  import opened Syntax
  import opened Grammar
  import opened GrammarFacts
  import opened Printer
  import RoundTrip

  /** A text holding exactly one statement, read by one turn of the loop of
      parse_prog, is the program of that statement. */
  lemma OneStatementProgram(s: seq<char>, st: Node)
    requires 0 < |s| && ParseStep(s, 0) == Ok((st, |s|))
    ensures ParseProgram(s) == Ok(Prog([st]))
  {
    ParseStmtsCons(s, 0, st, |s|, []);
    assert [st] + [] == [st];
  }

  /** `int x;` is one declaration. */
  lemma OneDeclaration()
    ensures ParseProgram("int x;") == Ok(Prog([Stmt(Decl(TypeRef(Tint), Sym("x")))]))
  {
    var s := "int x;";
    assert ValidName("x");
    assert Occurs(s, 0, "int") && Occurs(s, 4, "x");
    TrimAt(s, 0, 0);
    ParseStmtAt(s, 0, 4, "x", 5);
    TrimAt(s, 6, 6);
    OneStatementProgram(s, Stmt(Decl(TypeRef(Tint), Sym("x"))));
  }

  /** ... and it prints back as "int x;\n". */
  lemma OneDeclarationPrinted()
    ensures PrintNode(Prog([Stmt(Decl(TypeRef(Tint), Sym("x")))])) == "int x;\n"
  {
  }

  /** Whitespace may surround each part of a statement. */
  lemma SpacedDeclaration()
    ensures ParseProgram(" int\ta ;\n") == Ok(Prog([Stmt(Decl(TypeRef(Tint), Sym("a")))]))
  {
    var s := " int\ta ;\n";
    assert ValidName("a");
    assert Occurs(s, 1, "int") && Occurs(s, 5, "a");
    TrimAt(s, 0, 1);
    ParseStmtAt(s, 1, 5, "a", 7);
    TrimAt(s, 8, 9);
    OneStatementProgram(s, Stmt(Decl(TypeRef(Tint), Sym("a"))));
  }

  /** Statements keep their source order. */
  lemma TwoDeclarations()
    ensures ParseProgram("int a;\nint b;\n") ==
      Ok(Prog([Stmt(Decl(TypeRef(Tint), Sym("a"))), Stmt(Decl(TypeRef(Tint), Sym("b")))]))
  {
    var s := "int a;\nint b;\n";
    var p := Prog([Stmt(Decl(TypeRef(Tint), Sym("a"))), Stmt(Decl(TypeRef(Tint), Sym("b")))]);
    assert ValidName("a") && ValidName("b");
    assert PrintNode(p) == s by {
      assert PrintNodes(p.stmts) == PrintNode(p.stmts[0]) + PrintNodes(p.stmts[1..]);
      assert p.stmts[1..] == [p.stmts[1]];
      assert PrintNodes(p.stmts[1..]) == PrintNode(p.stmts[1]) + PrintNodes([]);
    }
    RoundTrip.ParsePrinted(p);
  }

  /** A name may be spelled like the type keyword. */
  lemma KeywordAsName()
    ensures ParseProgram("int int;") == Ok(Prog([Stmt(Decl(TypeRef(Tint), Sym("int")))]))
  {
    var s := "int int;";
    assert ValidName("int");
    assert Occurs(s, 0, "int") && Occurs(s, 4, "int");
    TrimAt(s, 0, 0);
    ParseStmtAt(s, 0, 4, "int", 7);
    TrimAt(s, 8, 8);
    OneStatementProgram(s, Stmt(Decl(TypeRef(Tint), Sym("int"))));
  }

  /** A program whose first statement fails fails with that statement's
      error. */
  lemma FirstStatementFails(s: seq<char>, e: Error)
    requires 0 < |s| && ParseStmt(s, Trim(s, 0)) == Err(e)
    ensures ParseProgram(s) == Err(e)
  {
    ParseStmtsStep(s, 0);
  }

  /** `float` is read whole and is not the type int. */
  lemma UnknownTypeFloat()
    ensures ParseProgram("float x;") == Err(UnknownType("float"))
  {
    var s := "float x;";
    assert ValidName("float") && Occurs(s, 0, "float");
    LexNameAt(s, 0, "float");
    TrimAt(s, 0, 0);
    FirstStatementFails(s, UnknownType("float"));
  }

  /** Leading whitespace is skipped before the first statement fails. */
  lemma LeadingSpaceUnknownType()
    ensures ParseProgram(" \tfloat x;") == Err(UnknownType("float"))
  {
    var s := " \tfloat x;";
    assert ValidName("float") && Occurs(s, 2, "float");
    LexNameAt(s, 2, "float");
    TrimAt(s, 0, 2);
    FirstStatementFails(s, UnknownType("float"));
  }

  /** `intx` is one name, not the type int followed by `x`. */
  lemma UnknownTypeIntx()
    ensures ParseProgram("intx y;") == Err(UnknownType("intx"))
  {
    var s := "intx y;";
    assert ValidName("intx") && Occurs(s, 0, "intx");
    LexNameAt(s, 0, "intx");
    TrimAt(s, 0, 0);
    FirstStatementFails(s, UnknownType("intx"));
  }

  /** The end of input where `;` belongs. */
  lemma MissingSemicolon()
    ensures ParseProgram("int x") == Err(ExpectedChar(';', Eof))
  {
    var s := "int x";
    assert ValidName("x");
    assert Occurs(s, 0, "int") && Occurs(s, 4, "x");
    ParseDeclAt(s, 0, 4, "x");
    TrimAt(s, 5, 5);
    TrimAt(s, 0, 0);
    FirstStatementFails(s, ExpectedChar(';', Eof));
  }

  /** A character that no rule expects where `;` belongs. */
  lemma StrayCharacter()
    ensures ParseProgram("int x @;") == Err(ExpectedChar(';', Char('@')))
  {
    var s := "int x @;";
    assert ValidName("x");
    assert Occurs(s, 0, "int") && Occurs(s, 4, "x");
    ParseDeclAt(s, 0, 4, "x");
    TrimAt(s, 5, 6);
    TrimAt(s, 0, 0);
    FirstStatementFails(s, ExpectedChar(';', Char('@')));
  }

  /** A type without a name. */
  lemma MissingName()
    ensures ParseProgram("int ;") == Err(ExpectedIdentifier(Char(';')))
  {
    var s := "int ;";
    assert ValidName("int") && Occurs(s, 0, "int");
    LexNameAt(s, 0, "int");
    assert ParseType(s, 0) == Ok((TypeRef(Tint), 3));
    TrimAt(s, 3, 4);
    assert LexName(s, 4) == Err(ExpectedIdentifier(Char(';')));
    TrimAt(s, 0, 0);
    FirstStatementFails(s, ExpectedIdentifier(Char(';')));
  }
}
