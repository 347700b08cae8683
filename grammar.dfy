/** The parser of cc.c as pure functions. The input is the whole text s and a
    position i in it, the place the stream has reached; each function returns
    what the corresponding C routine builds together with the position after
    what it read, or the failure it panics with. These are the specifications
    the cursor methods of modules Cursor and Parser are proved against. */
module Grammar {
  import opened Chars
  import opened Errors
  import opened Syntax

  /** trim: the position after the run of whitespace that starts at i. */
  function Trim(s: seq<char>, i: nat): (j: nat)
    requires i <= |s|
    ensures i <= j <= |s|
    ensures j == |s| || !IsSpace(s[j])
    decreases |s| - i
  {
    if i < |s| && IsSpace(s[i]) then Trim(s, i + 1) else i
  }

  /** trim skips whitespace only. */
  lemma {:induction false} TrimChars(s: seq<char>, i: nat)
    requires i <= |s|
    ensures forall k :: i <= k < Trim(s, i) ==> IsSpace(s[k])
    decreases |s| - i
  {
    if i < |s| && IsSpace(s[i]) {
      TrimChars(s, i + 1);
    }
  }

  /** The position after the run of identifier characters that starts at i. */
  function NameEnd(s: seq<char>, i: nat): (j: nat)
    requires i <= |s|
    ensures i <= j <= |s|
    ensures j == |s| || !IsNameChar(s[j])
    decreases |s| - i
  {
    if i < |s| && IsNameChar(s[i]) then NameEnd(s, i + 1) else i
  }

  /** Every character the run of NameEnd passes over is an identifier
      character. */
  lemma {:induction false} NameEndChars(s: seq<char>, i: nat)
    requires i <= |s|
    ensures forall k :: i <= k < NameEnd(s, i) ==> IsNameChar(s[k])
    decreases |s| - i
  {
    if i < |s| && IsNameChar(s[i]) {
      NameEndChars(s, i + 1);
    }
  }

  /** The characters of s from a up to b, gathered one at a time from the
      left as shiftname fills its buffer. */
  function Substr(s: seq<char>, a: nat, b: nat): (r: seq<char>)
    requires a <= b <= |s|
    ensures |r| == b - a
    decreases b - a
  {
    if a == b then [] else Substr(s, a, b - 1) + [s[b - 1]]
  }

  /** Substr(s, a, b) is the slice s[a..b]. */
  lemma {:induction false} SubstrSlice(s: seq<char>, a: nat, b: nat)
    requires a <= b <= |s|
    ensures Substr(s, a, b) == s[a..b]
    decreases b - a
  {
    if a < b {
      SubstrSlice(s, a, b - 1);
      assert s[a..b] == s[a..b - 1] + [s[b - 1]];
    }
  }

  /** shiftname: the maximal identifier that starts at i. It fails when no
      letter or `_` stands at i, and when the identifier is longer than the
      buffer can hold. */
  function LexName(s: seq<char>, i: nat): (r: Result<(string, nat)>)
    requires i <= |s|
    ensures r.Ok? ==> var (x, j) := r.value;
      && i < j <= |s| && |x| == j - i && ValidName(x)
      && (j == |s| || !IsNameChar(s[j]))
    ensures r.Err? ==> r.err == if i == |s| || !IsNameStart(s[i])
                                then ExpectedIdentifier(At(s, i))
                                else IdentifierTooLong
  {
    if i == |s| || !IsNameStart(s[i]) then
      Err(ExpectedIdentifier(At(s, i)))
    else
      var j := NameEnd(s, i);
      NameEndChars(s, i);
      SubstrSlice(s, i, j);
      if j - i > MaxNameLen then Err(IdentifierTooLong)
      else Ok((Substr(s, i, j), j))
  }

  /** The identifier shiftname returns is the text it read. */
  lemma LexNameText(s: seq<char>, i: nat)
    requires i <= |s| && LexName(s, i).Ok?
    ensures s[i..LexName(s, i).value.1] == LexName(s, i).value.0
  {
    SubstrSlice(s, i, NameEnd(s, i));
  }

  /** shiftname accepts exactly a position where a letter or `_` starts a
      run of identifier characters that fits the buffer. */
  lemma LexNameAccepts(s: seq<char>, i: nat)
    requires i <= |s|
    ensures LexName(s, i).Ok? <==>
      i < |s| && IsNameStart(s[i]) && NameEnd(s, i) - i <= MaxNameLen
  {
  }

  /** shiftname's outcome once the first character is known to start an
      identifier and j is the end of the run after it. */
  lemma LexNameFrom(s: seq<char>, i: nat, j: nat)
    requires i < |s| && IsNameStart(s[i]) && j == NameEnd(s, i + 1)
    ensures j - i <= MaxNameLen ==> LexName(s, i) == Ok((Substr(s, i, j), j))
    ensures j - i > MaxNameLen ==> LexName(s, i) == Err(IdentifierTooLong)
  {
  }

  /** expectc: consumes the character e, which must stand at i. */
  function ExpectChar(s: seq<char>, i: nat, e: char): (r: Result<nat>)
    requires i <= |s|
    ensures r.Ok? <==> i < |s| && s[i] == e
    ensures r.Ok? ==> r.value == i + 1
    ensures r.Err? ==> r.err == ExpectedChar(e, At(s, i))
  {
    if i == |s| then Err(ExpectedChar(e, Eof))
    else if s[i] != e then Err(ExpectedChar(e, Char(s[i])))
    else Ok(i + 1)
  }

  /** parse_type: an identifier that must be exactly "int". */
  function ParseType(s: seq<char>, i: nat): (r: Result<(Node, nat)>)
    requires i <= |s|
    ensures r.Ok? ==> r.value.0 == TypeRef(Tint) && i < r.value.1 <= |s|
  {
    match LexName(s, i)
    case Err(e) => Err(e)
    case Ok((name, j)) =>
      if name == "int" then Ok((TypeRef(Tint), j)) else Err(UnknownType(name))
  }

  /** parse_name: any identifier, keywords included. */
  function ParseName(s: seq<char>, i: nat): (r: Result<(Node, nat)>)
    requires i <= |s|
    ensures r.Ok? <==> LexName(s, i).Ok?
    ensures r.Ok? ==> && r.value.0.Sym? && ValidName(r.value.0.s)
                      && i < r.value.1 <= |s| && |r.value.0.s| == r.value.1 - i
    ensures r.Ok? ==> r.value.0.s == s[i..r.value.1]
  {
    match LexName(s, i)
    case Err(e) => Err(e)
    case Ok((name, j)) =>
      LexNameText(s, i);
      Ok((Sym(name), j))
  }

  /** parse_decl: a type, optional whitespace, then a name. */
  function ParseDecl(s: seq<char>, i: nat): (r: Result<(Node, nat)>)
    requires i <= |s|
    ensures r.Ok? ==> var d := r.value.0;
      d.Decl? && d.typ == TypeRef(Tint) && d.name.Sym? && ValidName(d.name.s)
    ensures r.Ok? ==> i < r.value.1 <= |s|
  {
    match ParseType(s, i)
    case Err(e) => Err(e)
    case Ok((t, j)) =>
      match ParseName(s, Trim(s, j))
      case Err(e) => Err(e)
      case Ok((n, k)) => Ok((Decl(t, n), k))
  }

  /** parse_stmt: a declaration, optional whitespace, then `;`. */
  function ParseStmt(s: seq<char>, i: nat): (r: Result<(Node, nat)>)
    requires i <= |s|
    ensures r.Ok? ==> WellFormedStmt(r.value.0)
    ensures r.Ok? ==> i < r.value.1 <= |s|
  {
    match ParseDecl(s, i)
    case Err(e) => Err(e)
    case Ok((d, j)) =>
      match ExpectChar(s, Trim(s, j), ';')
      case Err(e) => Err(e)
      case Ok(k) => Ok((Stmt(d), k))
  }

  /** One turn of the loop of parse_prog: trim, parse a statement, trim. On
      success, the statement and the position after the second trim. */
  function ParseStep(s: seq<char>, i: nat): (r: Result<(Node, nat)>)
    requires i <= |s|
    ensures r.Ok? ==> WellFormedStmt(r.value.0) && i < r.value.1 <= |s|
  {
    match ParseStmt(s, Trim(s, i))
    case Err(e) => Err(e)
    case Ok((st, j)) => Ok((st, Trim(s, j)))
  }

  /** acc followed by the statements of r, or r's failure. */
  function Prepend(acc: seq<Node>, r: Result<seq<Node>>): (p: Result<seq<Node>>)
    ensures p.Ok? <==> r.Ok?
    ensures p.Ok? ==> p.value == acc + r.value
    ensures p.Err? ==> p.err == r.err
  {
    match r
    case Ok(ss) => Ok(acc + ss)
    case Err(e) => Err(e)
  }

  /** The loop of parse_prog from position i on: while input remains, one
      more statement. */
  function ParseStmts(s: seq<char>, i: nat): (r: Result<seq<Node>>)
    requires i <= |s|
    ensures r.Ok? ==> WellFormedStmts(r.value)
    decreases |s| - i
  {
    if i == |s| then Ok([])
    else
      match ParseStep(s, i)
      case Err(e) => Err(e)
      case Ok((st, j)) =>
        var rest := ParseStmts(s, j);
        if rest.Err? then Err(rest.err)
        else
          WellFormedCons(st, rest.value);
          Ok([st] + rest.value)
  }

  lemma WellFormedCons(st: Node, ss: seq<Node>)
    requires WellFormedStmt(st) && WellFormedStmts(ss)
    ensures WellFormedStmts([st] + ss)
  {
    var r := [st] + ss;
    forall j | 0 <= j < |r| ensures WellFormedStmt(r[j]) {
      if j > 0 { assert r[j] == ss[j - 1]; }
    }
  }

  /** The loop of parse_prog, one turn at a time: the statements from i on
      are the next statement followed by the statements after it, or the
      failure of that statement. */
  lemma ParseStmtsStep(s: seq<char>, i: nat)
    requires i < |s|
    ensures ParseStep(s, i).Ok? ==>
      ParseStmts(s, i) == Prepend([ParseStep(s, i).value.0], ParseStmts(s, ParseStep(s, i).value.1))
    ensures ParseStep(s, i).Err? ==> ParseStmts(s, i) == Err(ParseStep(s, i).err)
  {
  }

  /** A statement at i followed by the statements after it. */
  lemma ParseStmtsCons(s: seq<char>, i: nat, st: Node, j: nat, rest: seq<Node>)
    requires i < |s| && ParseStep(s, i) == Ok((st, j)) && ParseStmts(s, j) == Ok(rest)
    ensures ParseStmts(s, i) == Ok([st] + rest)
  {
  }

  /** Before the loop of parse_prog, no statement has been read. */
  lemma ParseStmtsLoopStart(s: seq<char>, i0: nat)
    requires i0 <= |s|
    ensures ParseStmts(s, i0) == Prepend([], ParseStmts(s, i0))
  {
    if ParseStmts(s, i0).Ok? {
      assert [] + ParseStmts(s, i0).value == ParseStmts(s, i0).value;
    }
  }

  /** When the loop of parse_prog has used up the input, the statements are
      those read so far. */
  lemma ParseStmtsLoopEnd(s: seq<char>, i0: nat, done: seq<Node>)
    requires i0 <= |s|
    requires ParseStmts(s, i0) == Prepend(done, ParseStmts(s, |s|))
    ensures ParseStmts(s, i0) == Ok(done)
  {
    assert done + [] == done;
  }

  /** When the next statement fails, parse_prog fails with its error. */
  lemma ParseStmtsLoopErr(s: seq<char>, i0: nat, done: seq<Node>, i: nat)
    requires i0 <= |s| && i < |s| && ParseStep(s, i).Err?
    requires ParseStmts(s, i0) == Prepend(done, ParseStmts(s, i))
    ensures ParseStmts(s, i0) == Err(ParseStep(s, i).err)
  {
    ParseStmtsStep(s, i);
  }

  /** The loop of parse_prog after some statements have been read: the
      statements from i0 on are those read so far, the next one, and the
      statements after it. */
  lemma ParseStmtsLoop(s: seq<char>, i0: nat, done: seq<Node>, i: nat)
    requires i0 <= |s| && i < |s| && ParseStep(s, i).Ok?
    requires ParseStmts(s, i0) == Prepend(done, ParseStmts(s, i))
    ensures ParseStmts(s, i0)
         == Prepend(done + [ParseStep(s, i).value.0], ParseStmts(s, ParseStep(s, i).value.1))
  {
    ParseStmtsStep(s, i);
    PrependAssoc(done, ParseStep(s, i).value.0, ParseStmts(s, ParseStep(s, i).value.1));
  }

  /** Statements read in two goes are the statements read at once. */
  lemma PrependAssoc(done: seq<Node>, st: Node, r: Result<seq<Node>>)
    ensures Prepend(done, Prepend([st], r)) == Prepend(done + [st], r)
  {
    if r.Ok? {
      assert done + ([st] + r.value) == (done + [st]) + r.value;
    }
  }

  /** parse_prog: the program node holding every statement in source order. */
  function ParseProgram(s: seq<char>): (r: Result<Node>)
    ensures r.Ok? ==> WellFormedProg(r.value)
  {
    match ParseStmts(s, 0)
    case Err(e) => Err(e)
    case Ok(ss) => Ok(Prog(ss))
  }
}
