/** What the parser functions of module Grammar do on inputs of a known shape:
    the facts the worked examples and the round trip are built from. */
module GrammarFacts {
  import opened Chars
  import opened Errors
  import opened Syntax
  import opened Grammar

  /** Every character of s from i up to j is whitespace. */
  predicate SpaceRun(s: seq<char>, i: nat, j: nat)
    requires i <= j <= |s|
  {
    forall k :: i <= k < j ==> IsSpace(s[k])
  }

  /** The text t stands in s at position i. */
  predicate Occurs(s: seq<char>, i: nat, t: seq<char>) {
    i + |t| <= |s| && forall k :: 0 <= k < |t| ==> s[i + k] == t[k]
  }

  /** Text that stands at i as a followed by b: a at i, then b after it. */
  lemma OccursSplit(s: seq<char>, i: nat, a: seq<char>, b: seq<char>)
    requires Occurs(s, i, a + b)
    ensures Occurs(s, i, a) && Occurs(s, i + |a|, b)
  {
    forall k | 0 <= k < |a| ensures s[i + k] == a[k] {
      assert (a + b)[k] == a[k];
    }
    forall k | 0 <= k < |b| ensures s[i + |a| + k] == b[k] {
      assert (a + b)[|a| + k] == b[k];
      assert s[i + (|a| + k)] == (a + b)[|a| + k];
    }
  }

  /** t stands in a + t + b right after a. */
  lemma OccursInConcat(a: seq<char>, t: seq<char>, b: seq<char>)
    ensures Occurs(a + t + b, |a|, t)
  {
    forall k | 0 <= k < |t| ensures (a + t + b)[|a| + k] == t[k] {
    }
  }

  /** Text that stands at i is the slice of s there. */
  lemma OccursSlice(s: seq<char>, i: nat, t: seq<char>)
    requires Occurs(s, i, t)
    ensures s[i..i + |t|] == t
  {
    forall k | 0 <= k < |t| ensures s[i..i + |t|][k] == t[k] {
      assert s[i + k] == t[k];
    }
  }

  /** A second trim consumes nothing. */
  lemma TrimIdempotent(s: seq<char>, i: nat)
    requires i <= |s|
    ensures Trim(s, Trim(s, i)) == Trim(s, i)
  {
  }

  /** trim stops exactly at the end of a whitespace run that nothing
      continues. */
  lemma {:induction false} TrimAt(s: seq<char>, i: nat, j: nat)
    requires i <= j <= |s| && SpaceRun(s, i, j)
    requires j == |s| || !IsSpace(s[j])
    ensures Trim(s, i) == j
    decreases j - i
  {
    if i < j {
      TrimAt(s, i + 1, j);
    }
  }

  /** The run of identifier characters from i ends exactly at j when every
      character up to j continues it and the one at j does not. */
  lemma {:induction false} NameEndAt(s: seq<char>, i: nat, j: nat)
    requires i <= j <= |s|
    requires forall k :: i <= k < j ==> IsNameChar(s[k])
    requires j == |s| || !IsNameChar(s[j])
    ensures NameEnd(s, i) == j
    decreases j - i
  {
    if i < j {
      NameEndAt(s, i + 1, j);
    }
  }

  /** shiftname returns exactly a valid name that stands at i and is not
      followed by an identifier character. */
  lemma LexNameAt(s: seq<char>, i: nat, x: string)
    requires ValidName(x) && Occurs(s, i, x)
    requires i + |x| == |s| || !IsNameChar(s[i + |x|])
    ensures LexName(s, i) == Ok((x, i + |x|))
  {
    forall k | i <= k < i + |x| ensures IsNameChar(s[k]) {
      assert s[i + (k - i)] == x[k - i];
    }
    assert s[i + 0] == x[0];
    NameEndAt(s, i, i + |x|);
    OccursSlice(s, i, x);
    SubstrSlice(s, i, i + |x|);
  }

  /** parse_type succeeds exactly when "int" stands at i and the identifier
      ends there: "intx" is read whole and rejected. */
  lemma ParseTypeExactlyInt(s: seq<char>, i: nat)
    requires i <= |s|
    ensures ParseType(s, i).Ok? <==>
      Occurs(s, i, "int") && (i + 3 == |s| || !IsNameChar(s[i + 3]))
    ensures ParseType(s, i).Ok? ==> ParseType(s, i).value == (TypeRef(Tint), i + 3)
  {
    if Occurs(s, i, "int") && (i + 3 == |s| || !IsNameChar(s[i + 3])) {
      assert ValidName("int");
      LexNameAt(s, i, "int");
    }
    if ParseType(s, i).Ok? {
      var (name, j) := LexName(s, i).value;
      LexNameText(s, i);
      assert name == "int" && s[i..j] == name;
      assert forall k :: 0 <= k < 3 ==> s[i + k] == s[i..j][k];
    }
  }

  /** parse_decl reads `int`, whitespace and a name; the whitespace cannot be
      left out, or the type keyword would run into the name. */
  lemma ParseDeclAt(s: seq<char>, i: nat, j: nat, x: string)
    requires i + 3 < j <= |s|
    requires Occurs(s, i, "int") && SpaceRun(s, i + 3, j)
    requires ValidName(x) && Occurs(s, j, x)
    requires j + |x| == |s| || !IsNameChar(s[j + |x|])
    ensures ParseDecl(s, i) == Ok((Decl(TypeRef(Tint), Sym(x)), j + |x|))
  {
    assert ValidName("int");
    assert IsSpace(s[i + 3]);
    LexNameAt(s, i, "int");
    assert s[j + 0] == x[0];
    TrimAt(s, i + 3, j);
    LexNameAt(s, j, x);
  }

  /** parse_stmt reads a declaration, optional whitespace and `;`, and stops
      right after the `;`. */
  lemma ParseStmtAt(s: seq<char>, i: nat, j: nat, x: string, k: nat)
    requires i + 3 < j && j + |x| <= k < |s|
    requires Occurs(s, i, "int") && SpaceRun(s, i + 3, j)
    requires ValidName(x) && Occurs(s, j, x)
    requires SpaceRun(s, j + |x|, k) && s[k] == ';'
    ensures ParseStmt(s, i) == Ok((Stmt(Decl(TypeRef(Tint), Sym(x))), k + 1))
  {
    if j + |x| < k {
      assert IsSpace(s[j + |x|]);
    }
    ParseDeclAt(s, i, j, x);
    TrimAt(s, j + |x|, k);
  }

  /** An input with no characters at all is the empty program. */
  lemma EmptyInputIsEmptyProgram()
    ensures ParseProgram([]) == Ok(Prog([]))
  {
  }

  /** An input made only of whitespace fails with "expected identifier, got
      EOF": parse_prog tests for the end of input before it trims, so it goes
      on to read a statement from nothing. */
  lemma WhitespaceOnlyFails(s: seq<char>)
    requires s != [] && SpaceRun(s, 0, |s|)
    ensures ParseProgram(s) == Err(ExpectedIdentifier(Eof))
  {
    TrimAt(s, 0, |s|);
    ParseStmtsStep(s, 0);
  }
}
