/** Printing a tree that parse_prog built and parsing the text again gives the
    same tree back. */
module RoundTrip {
  import opened Errors
  import opened Syntax
  import opened Grammar
  import opened GrammarFacts
  import opened Printer

  /** A well-formed statement prints as `int name;` and a newline. */
  lemma PrintedStmt(st: Node)
    requires WellFormedStmt(st)
    ensures PrintNode(st) == "int" + " " + st.body.name.s + ";\n"
  {
    var d := st.body;
    assert PrintNode(d.typ) == "int";
    assert PrintNode(d.name) == d.name.s;
    assert PrintNode(d) == "int" + " " + d.name.s;
  }

  lemma WellFormedTail(ss: seq<Node>)
    requires ss != [] && WellFormedStmts(ss)
    ensures WellFormedStmt(ss[0]) && WellFormedStmts(ss[1..])
  {
    forall j | 0 <= j < |ss[1..]| ensures WellFormedStmt(ss[1..][j]) {
      assert ss[1..][j] == ss[j + 1];
    }
  }

  /** The text of s from i on is the rendering of ss, statement by
      statement. */
  predicate PrintedAt(s: seq<char>, i: nat, ss: seq<Node>)
    decreases ss
  {
    if ss == [] then i == |s|
    else Occurs(s, i, PrintNode(ss[0])) && PrintedAt(s, i + |PrintNode(ss[0])|, ss[1..])
  }

  /** The rendering of ss placed after pre is printed at |pre|. */
  lemma {:induction false} PrintedAtConcat(pre: seq<char>, ss: seq<Node>)
    ensures PrintedAt(pre + PrintNodes(ss), |pre|, ss)
    decreases ss
  {
    if ss == [] {
      assert pre + PrintNodes(ss) == pre;
    } else {
      var a, b := PrintNode(ss[0]), PrintNodes(ss[1..]);
      assert pre + PrintNodes(ss) == pre + a + b;
      OccursInConcat(pre, a, b);
      PrintedAtConcat(pre + a, ss[1..]);
    }
  }

  /** Printed well-formed statements start with the `i` of `int`, or are
      absent at the end of the text. */
  lemma PrintedAtStart(s: seq<char>, i: nat, ss: seq<Node>)
    requires WellFormedStmts(ss) && PrintedAt(s, i, ss)
    ensures i == |s| || (i < |s| && s[i] == 'i')
  {
    if ss != [] {
      assert WellFormedStmt(ss[0]);
      PrintedStmt(ss[0]);
      assert s[i + 0] == PrintNode(ss[0])[0];
    }
  }

  /** Where the pieces of a printed statement stand in the text when it
      starts at i. */
  lemma PrintedStmtAt(s: seq<char>, i: nat, x: string)
    requires Occurs(s, i, "int" + (" " + (x + (";" + "\n"))))
    ensures Occurs(s, i, "int") && s[i + 3] == ' ' && Occurs(s, i + 4, x)
    ensures s[i + 4 + |x|] == ';' && s[i + 5 + |x|] == '\n'
  {
    var n := |x|;
    OccursSplit(s, i, "int", " " + (x + (";" + "\n")));
    OccursSplit(s, i + 3, " ", x + (";" + "\n"));
    OccursSplit(s, i + 4, x, ";" + "\n");
    OccursSplit(s, i + 4 + n, ";", "\n");
    assert s[i + 3 + 0] == " "[0];
    assert s[i + 4 + n + 0] == ";"[0];
    assert s[i + 5 + n + 0] == "\n"[0];
  }

  /** One turn of the loop of parse_prog over `int x;` and a newline at i,
      followed by the end of the text or by the `i` of the next `int`: the
      declaration of x, and the position right after the newline. */
  lemma ParseStepAt(s: seq<char>, i: nat, x: string)
    requires i + 6 + |x| <= |s| && ValidName(x)
    requires Occurs(s, i, "int") && s[i + 3] == ' ' && Occurs(s, i + 4, x)
    requires s[i + 4 + |x|] == ';' && s[i + 5 + |x|] == '\n'
    requires i + 6 + |x| == |s| || s[i + 6 + |x|] == 'i'
    ensures ParseStep(s, i) == Ok((Stmt(Decl(TypeRef(Tint), Sym(x))), i + 6 + |x|))
  {
    var n := |x|;
    assert s[i + 0] == "int"[0];
    TrimAt(s, i, i);
    ParseStmtAt(s, i, i + 4, x, i + 4 + n);
    TrimAt(s, i + 5 + n, i + 6 + n);
  }

  /** One turn of the loop of parse_prog over a printed statement that is
      followed by the end of the text or by another printed statement: the
      statement, and the position right after its newline. */
  lemma ParseStepOfPrinted(s: seq<char>, i: nat, st: Node)
    requires WellFormedStmt(st) && Occurs(s, i, PrintNode(st))
    requires i + |PrintNode(st)| == |s| || s[i + |PrintNode(st)|] == 'i'
    ensures ParseStep(s, i) == Ok((st, i + |PrintNode(st)|))
  {
    var x := st.body.name.s;
    PrintedStmt(st);
    assert PrintNode(st) == "int" + (" " + (x + (";" + "\n")));
    PrintedStmtAt(s, i, x);
    ParseStepAt(s, i, x);
  }

  /** The first statement of printed statements, and where the rest of them
      is printed. */
  lemma PrintedAtCons(s: seq<char>, i: nat, ss: seq<Node>)
    requires ss != [] && WellFormedStmts(ss) && PrintedAt(s, i, ss)
    ensures WellFormedStmt(ss[0]) && Occurs(s, i, PrintNode(ss[0]))
    ensures WellFormedStmts(ss[1..]) && PrintedAt(s, i + |PrintNode(ss[0])|, ss[1..])
  {
    WellFormedTail(ss);
  }

  /** The loop of parse_prog, turn by turn, reads the statements ss from i
      and stops at the end of the text. */
  predicate StepsAt(s: seq<char>, i: nat, ss: seq<Node>)
    requires i <= |s|
    decreases ss
  {
    if ss == [] then i == |s|
    else
      && i < |s| && ParseStep(s, i).Ok? && ParseStep(s, i).value.0 == ss[0]
      && StepsAt(s, ParseStep(s, i).value.1, ss[1..])
  }

  /** Statements read turn by turn are what the loop of parse_prog returns. */
  lemma {:induction false} ParseStmtsOfSteps(s: seq<char>, i: nat, ss: seq<Node>)
    requires i <= |s| && StepsAt(s, i, ss)
    ensures ParseStmts(s, i) == Ok(ss)
    decreases ss
  {
    if ss != [] {
      var j := ParseStep(s, i).value.1;
      ParseStmtsOfSteps(s, j, ss[1..]);
      ParseStmtsCons(s, i, ss[0], j, ss[1..]);
      assert [ss[0]] + ss[1..] == ss;
    }
  }

  /** The loop of parse_prog reads printed statements back one per turn. */
  lemma {:induction false} StepsOfPrinted(s: seq<char>, i: nat, ss: seq<Node>)
    requires WellFormedStmts(ss) && PrintedAt(s, i, ss)
    ensures i <= |s| && StepsAt(s, i, ss)
    decreases ss
  {
    if ss != [] {
      var j := i + |PrintNode(ss[0])|;
      PrintedAtCons(s, i, ss);
      PrintedAtStart(s, j, ss[1..]);
      ParseStepOfPrinted(s, i, ss[0]);
      StepsOfPrinted(s, j, ss[1..]);
    }
  }

  /** Any tree of the shape parse_prog builds survives printing and parsing. */
  lemma ParsePrinted(p: Node)
    requires WellFormedProg(p)
    ensures ParseProgram(PrintNode(p)) == Ok(p)
  {
    PrintedAtConcat([], p.stmts);
    assert [] + PrintNodes(p.stmts) == PrintNode(p);
    StepsOfPrinted(PrintNode(p), 0, p.stmts);
    ParseStmtsOfSteps(PrintNode(p), 0, p.stmts);
  }

  /** Parsing the printed text of a parsed program yields the same program, so
      the printed text is a fixed point of parsing and printing. */
  lemma ReparsePrinted(s: seq<char>)
    requires ParseProgram(s).Ok?
    ensures ParseProgram(PrintNode(ParseProgram(s).value)) == ParseProgram(s)
    ensures PrintNode(ParseProgram(PrintNode(ParseProgram(s).value)).value)
         == PrintNode(ParseProgram(s).value)
  {
    ParsePrinted(ParseProgram(s).value);
  }
}
