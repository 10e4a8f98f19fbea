/** Column-name resolution for `select <columns> from <table>`: the column
    names come from the table's stored CREATE TABLE text by string
    splitting, not by parsing SQL. The text after the first `(` is split on
    `,`, each piece is trimmed, and the piece's first space-delimited token
    is taken as the name. Each requested name then maps to its first
    position in that list, or to -1. */
module Columns {
  import opened ByteAccess
  import opened Text

  /** The first space-delimited token of a trimmed piece: `str.Split(' ')[0]`. */
  function FirstToken(s: seq<byte>): (r: seq<byte>)
    ensures r <= s && Space !in r
    ensures r == s || s[|r|] == Space
  {
    var i := IndexOf(s, Space);
    assert i != -1 ==> s[i + 1..][..0] == [];
    Split(s, Space)[0]
  }

  /** The declared column names of a CREATE TABLE text. Without a `(` the
      whole text is split (IndexOf yields -1, and -1 + 1 is 0). */
  function DeclaredColumns(sql: seq<byte>): (r: seq<seq<byte>>)
    ensures |r| >= 1
  {
    var start := IndexOf(sql, OpenParen) + 1;
    Tokens(Split(sql[start..], Comma))
  }

  /** Each piece trimmed and cut at its first space, in order. */
  function Tokens(pieces: seq<seq<byte>>): (r: seq<seq<byte>>)
    ensures |r| == |pieces|
  {
    if pieces == [] then [] else [FirstToken(Trim(pieces[0]))] + Tokens(pieces[1..])
  }

  /** The resolved index of every requested name: its first position among
      the declared columns, or -1 when it is not declared. */
  function ResolveColumns(columns: seq<seq<byte>>, names: seq<seq<byte>>): (r: seq<int>)
    ensures |r| == |names|
    ensures forall k :: 0 <= k < |names| ==>
      (r[k] == -1 <==> names[k] !in columns)
    ensures forall k :: 0 <= k < |names| && r[k] != -1 ==>
      0 <= r[k] < |columns| && columns[r[k]] == names[k] &&
      forall j :: 0 <= j < r[k] ==> columns[j] != names[k]
  {
    seq(|names|, k requires 0 <= k < |names| => IndexOf(columns, names[k]))
  }
  /** A column name as a plain CREATE TABLE writes it: not empty, with no
      comma and no white space. */
  predicate PlainName(name: seq<byte>)
  {
    |name| > 0 && Comma !in name && forall k :: 0 <= k < |name| ==> !IsWhiteSpace(name[k])
  }

  /** One column declaration: the name, then a space and the type, if it
      has one. */
  function Declaration(name: seq<byte>, colType: seq<byte>): seq<byte>
  {
    if colType == [] then name else name + [Space] + colType
  }

  /** A run of white space: what may stand before a declaration, such as
      the space after a comma, or a line break and indentation. */
  predicate Blank(lead: seq<byte>)
  {
    forall k :: 0 <= k < |lead| ==> IsWhiteSpace(lead[k])
  }

  /** The declarations joined by commas, each after its own run of white
      space, as a CREATE TABLE lists them between its parentheses: the
      runs are "" and then " " for `a x, b y`, and line breaks with
      indentation for a list written one column per line. */
  function ColumnDefs(leads: seq<seq<byte>>, names: seq<seq<byte>>, types: seq<seq<byte>>): seq<byte>
    requires |leads| == |names| == |types| >= 1
    decreases |names|
  {
    if |names| == 1 then leads[0] + Declaration(names[0], types[0])
    else leads[0] + Declaration(names[0], types[0]) + [Comma] + ColumnDefs(leads[1..], names[1..], types[1..])
  }

  /** Trimming the start drops exactly the white space before a word. */
  lemma TrimLead(lead: seq<byte>, u: seq<byte>)
    requires Blank(lead)
    requires |u| > 0 && !IsWhiteSpace(u[0])
    ensures TrimStart(lead + u) == u
  {
    var s := lead + u;
    var r := TrimStart(s);
    assert forall k :: 0 <= k < |lead| ==> s[k] == lead[k];
    assert s[|lead|] == u[0];
    assert |r| > 0 ==> r[0] == s[|s| - |r|];
    assert |s| - |r| == |lead|;
    assert s[|lead|..] == u;
  }

  /** Trimming the end keeps a word whole, and whatever it keeps past the
      word starts with the space after it. */
  lemma TrimTrail(word: seq<byte>, rest: seq<byte>)
    requires PlainName(word)
    requires rest == [] || rest[0] == Space
    ensures var r := TrimEnd(word + rest);
      && |r| >= |word| && r[..|word|] == word
      && (|word| < |r| ==> r[|word|] == Space)
  {
    var u := word + rest;
    var r := TrimEnd(u);
    assert u[|word| - 1] == word[|word| - 1];
    assert |r| >= |word|;
    assert r[..|word|] == u[..|word|] == word;
  }

  /** Cutting at the first space finds a word that a space, or nothing,
      follows. */
  lemma WordBeforeSpace(word: seq<byte>, r: seq<byte>)
    requires PlainName(word)
    requires |r| >= |word| && r[..|word|] == word
    requires |word| < |r| ==> r[|word|] == Space
    ensures FirstToken(r) == word
  {
    assert forall k :: 0 <= k < |word| ==> r[k] == word[k];
    var tk := FirstToken(r);
    assert |tk| == |word|;
    assert tk == r[..|word|];
  }

  /** A piece that is white space, a word and then nothing or a space and
      anything, yields that word. */
  lemma WordToken(lead: seq<byte>, word: seq<byte>, rest: seq<byte>)
    requires Blank(lead)
    requires PlainName(word)
    requires rest == [] || rest[0] == Space
    ensures FirstToken(Trim(lead + word + rest)) == word
  {
    assert lead + word + rest == lead + (word + rest);
    TrimLead(lead, word + rest);
    TrimTrail(word, rest);
    WordBeforeSpace(word, TrimEnd(word + rest));
  }

  /** A declaration's piece, with white space before it, yields its name;
      a closing tail may follow when the declaration has a type. */
  lemma DeclarationToken(lead: seq<byte>, name: seq<byte>, colType: seq<byte>, tail: seq<byte>)
    requires Blank(lead)
    requires PlainName(name)
    requires colType != [] || tail == []
    ensures FirstToken(Trim(lead + Declaration(name, colType) + tail)) == name
  {
    if colType == [] {
      assert lead + Declaration(name, colType) + tail == lead + name + [];
      WordToken(lead, name, []);
    } else {
      assert lead + Declaration(name, colType) + tail == lead + name + ([Space] + colType + tail);
      WordToken(lead, name, [Space] + colType + tail);
    }
  }

  /** A declaration's piece that a comma ends yields its name. */
  lemma InnerDeclarationToken(lead: seq<byte>, name: seq<byte>, colType: seq<byte>)
    requires Blank(lead)
    requires PlainName(name)
    ensures FirstToken(Trim(lead + Declaration(name, colType))) == name
  {
    assert lead + Declaration(name, colType) == lead + Declaration(name, colType) + [];
    DeclarationToken(lead, name, colType, []);
  }

  /** The pieces a comma split of the declarations yields: each
      declaration with the white space before it, the last one running on
      into `tail`. */
  function DeclPieces(leads: seq<seq<byte>>, names: seq<seq<byte>>, types: seq<seq<byte>>, tail: seq<byte>)
    : (r: seq<seq<byte>>)
    requires |leads| == |names| == |types| >= 1
    decreases |names|
    ensures |r| == |names|
  {
    if |names| == 1 then [leads[0] + Declaration(names[0], types[0]) + tail]
    else [leads[0] + Declaration(names[0], types[0])] + DeclPieces(leads[1..], names[1..], types[1..], tail)
  }

  lemma DefsCons(leads: seq<seq<byte>>, names: seq<seq<byte>>, types: seq<seq<byte>>)
    requires |leads| == |names| == |types| > 1
    ensures ColumnDefs(leads, names, types) ==
      leads[0] + Declaration(names[0], types[0]) + [Comma] + ColumnDefs(leads[1..], names[1..], types[1..])
  {
  }

  /** The first comma ends the first declaration's piece. */
  lemma SplitStep(p: seq<byte>, rest: seq<byte>, tail: seq<byte>)
    requires Comma !in p
    ensures Split(p + [Comma] + rest + tail, Comma) == [p] + Split(rest + tail, Comma)
  {
    assert p + [Comma] + rest + tail == p + [Comma] + (rest + tail);
    SplitAtFirst(p, rest + tail, Comma);
  }

  lemma NoCommaInSpace(lead: seq<byte>)
    requires Blank(lead)
    ensures Comma !in lead
  {
    assert forall k :: 0 <= k < |lead| ==> lead[k] != Comma;
  }

  /** Splitting declarations free of commas on commas gives one piece per
      declaration. */
  lemma {:induction false} SplitDefs(
    leads: seq<seq<byte>>, names: seq<seq<byte>>, types: seq<seq<byte>>, tail: seq<byte>)
    requires |leads| == |names| == |types| >= 1
    requires forall k :: 0 <= k < |leads| ==> Blank(leads[k])
    requires forall k :: 0 <= k < |names| ==> Comma !in names[k] && Comma !in types[k]
    requires Comma !in tail
    decreases |names|
    ensures Split(ColumnDefs(leads, names, types) + tail, Comma) == DeclPieces(leads, names, types, tail)
  {
    var d := Declaration(names[0], types[0]);
    NoCommaInSpace(leads[0]);
    assert Comma !in d;
    var p := leads[0] + d;
    assert Comma !in p;
    if |names| == 1 {
      var s := p + tail;
      assert Comma !in s;
      assert Split(s, Comma) == [s];
    } else {
      DefsCons(leads, names, types);
      SplitStep(p, ColumnDefs(leads[1..], names[1..], types[1..]), tail);
      SplitDefs(leads[1..], names[1..], types[1..], tail);
    }
  }

  lemma TokensCons(p: seq<byte>, pieces: seq<seq<byte>>)
    ensures Tokens([p] + pieces) == [FirstToken(Trim(p))] + Tokens(pieces)
  {
    assert ([p] + pieces)[1..] == pieces;
  }

  /** The last declaration, the one the closing parenthesis follows. */
  function LastDecl(names: seq<seq<byte>>, types: seq<seq<byte>>): seq<byte>
    requires |names| == |types| >= 1
  {
    Declaration(names[|names| - 1], types[|names| - 1])
  }

  /** The white space before the last declaration. */
  function LastLead(leads: seq<seq<byte>>): seq<byte>
    requires |leads| >= 1
  {
    leads[|leads| - 1]
  }

  lemma LastDeclCons(leads: seq<seq<byte>>, names: seq<seq<byte>>, types: seq<seq<byte>>)
    requires |leads| == |names| == |types| > 1
    ensures LastDecl(names[1..], types[1..]) == LastDecl(names, types)
    ensures LastLead(leads[1..]) == LastLead(leads)
  {
    assert types[1..][|names| - 2] == types[|names| - 1];
    assert names[1..][|names| - 2] == names[|names| - 1];
    assert leads[1..][|names| - 2] == leads[|names| - 1];
  }

  /** Every name but the last. */
  function AllButLast(names: seq<seq<byte>>): seq<seq<byte>>
    requires |names| >= 1
  {
    names[..|names| - 1]
  }

  lemma InitCons(names: seq<seq<byte>>, w: seq<byte>)
    requires |names| > 1
    ensures [names[0]] + (AllButLast(names[1..]) + [w]) == AllButLast(names) + [w]
  {
    assert [names[0]] + AllButLast(names[1..]) == names[..|names| - 1];
  }

  /** A single declaration's piece yields `w`. */
  lemma OneDeclToken(
    leads: seq<seq<byte>>, names: seq<seq<byte>>, types: seq<seq<byte>>, tail: seq<byte>, w: seq<byte>)
    requires |leads| == |names| == |types| == 1
    requires FirstToken(Trim(LastLead(leads) + LastDecl(names, types) + tail)) == w
    ensures Tokens(DeclPieces(leads, names, types, tail)) == AllButLast(names) + [w]
  {
    var p := leads[0] + Declaration(names[0], types[0]) + tail;
    assert DeclPieces(leads, names, types, tail) == [p];
    TokensCons(p, []);
    assert [p] + [] == [p];
    assert names[..|names| - 1] == [];
  }

  /** Every piece but the last yields its declaration's name; the last
      yields `w`. */
  lemma {:induction false} DeclTokens(
    leads: seq<seq<byte>>, names: seq<seq<byte>>, types: seq<seq<byte>>, tail: seq<byte>, w: seq<byte>)
    requires |leads| == |names| == |types| >= 1
    requires forall k :: 0 <= k < |leads| ==> Blank(leads[k])
    requires forall k :: 0 <= k < |names| ==> PlainName(names[k])
    requires FirstToken(Trim(LastLead(leads) + LastDecl(names, types) + tail)) == w
    decreases |names|
    ensures Tokens(DeclPieces(leads, names, types, tail)) == AllButLast(names) + [w]
  {
    if |names| == 1 {
      OneDeclToken(leads, names, types, tail, w);
    } else {
      LastDeclCons(leads, names, types);
      DeclTokens(leads[1..], names[1..], types[1..], tail, w);
      FirstDeclToken(leads, names, types, tail, w);
    }
  }

  /** The first declaration's piece yields the first name in front of the
      names the other pieces yield. */
  lemma FirstDeclToken(
    leads: seq<seq<byte>>, names: seq<seq<byte>>, types: seq<seq<byte>>, tail: seq<byte>, w: seq<byte>)
    requires |leads| == |names| == |types| > 1
    requires Blank(leads[0]) && PlainName(names[0])
    requires Tokens(DeclPieces(leads[1..], names[1..], types[1..], tail)) == AllButLast(names[1..]) + [w]
    ensures Tokens(DeclPieces(leads, names, types, tail)) == AllButLast(names) + [w]
  {
    var p := leads[0] + Declaration(names[0], types[0]);
    var rest := DeclPieces(leads[1..], names[1..], types[1..], tail);
    assert DeclPieces(leads, names, types, tail) == [p] + rest;
    TokensCons(p, rest);
    InnerDeclarationToken(leads[0], names[0], types[0]);
    InitCons(names, w);
  }

  /** The text after the first `(`, when none comes before it. */
  lemma AfterOpenParen(prefix: seq<byte>, defs: seq<byte>)
    requires OpenParen !in prefix
    ensures DeclaredColumns(prefix + [OpenParen] + defs + [CloseParen]) == Tokens(Split(defs + [CloseParen], Comma))
  {
    var body := defs + [CloseParen];
    var sql := prefix + [OpenParen] + defs + [CloseParen];
    assert sql == prefix + ([OpenParen] + body);
    IndexAfterFree(prefix, [OpenParen] + body, OpenParen);
    assert sql[|prefix| + 1..] == body;
  }

  /** The names of a CREATE TABLE text split into declaration pieces. */
  lemma DefsPieces(prefix: seq<byte>, leads: seq<seq<byte>>, names: seq<seq<byte>>, types: seq<seq<byte>>)
    requires OpenParen !in prefix
    requires |leads| == |names| == |types| >= 1
    requires forall k :: 0 <= k < |leads| ==> Blank(leads[k])
    requires forall k :: 0 <= k < |names| ==> PlainName(names[k]) && Comma !in types[k]
    ensures DeclaredColumns(prefix + [OpenParen] + ColumnDefs(leads, names, types) + [CloseParen]) ==
      Tokens(DeclPieces(leads, names, types, [CloseParen]))
  {
    AfterOpenParen(prefix, ColumnDefs(leads, names, types));
    SplitDefs(leads, names, types, [CloseParen]);
  }

  /** The piece of a last declaration that has a type yields its name. */
  lemma TypedLastToken(lead: seq<byte>, names: seq<seq<byte>>, types: seq<seq<byte>>)
    requires Blank(lead)
    requires |names| == |types| >= 1
    requires PlainName(names[|names| - 1]) && types[|types| - 1] != []
    ensures FirstToken(Trim(lead + LastDecl(names, types) + [CloseParen])) == names[|names| - 1]
  {
    DeclarationToken(lead, names[|names| - 1], types[|names| - 1], [CloseParen]);
  }

  /** The piece of a last declaration without a type runs into the `)`. */
  lemma UntypedLastToken(lead: seq<byte>, names: seq<seq<byte>>, types: seq<seq<byte>>)
    requires Blank(lead)
    requires |names| == |types| >= 1
    requires PlainName(names[|names| - 1]) && types[|types| - 1] == []
    ensures FirstToken(Trim(lead + LastDecl(names, types) + [CloseParen])) == names[|names| - 1] + [CloseParen]
  {
    var name := names[|names| - 1];
    var w := name + [CloseParen];
    assert PlainName(w) by {
      assert forall k :: 0 <= k < |name| ==> w[k] == name[k];
    }
    assert lead + LastDecl(names, types) + [CloseParen] == lead + w + [];
    WordToken(lead, w, []);
  }

  /** The pieces of declarations that all have types yield their names. */
  lemma TypedTokens(leads: seq<seq<byte>>, names: seq<seq<byte>>, types: seq<seq<byte>>)
    requires |leads| == |names| == |types| >= 1
    requires forall k :: 0 <= k < |leads| ==> Blank(leads[k])
    requires forall k :: 0 <= k < |names| ==> PlainName(names[k])
    requires types[|types| - 1] != []
    ensures Tokens(DeclPieces(leads, names, types, [CloseParen])) == names
  {
    TypedLastToken(LastLead(leads), names, types);
    DeclTokens(leads, names, types, [CloseParen], names[|names| - 1]);
    InitLast(names);
  }

  lemma InitLast(names: seq<seq<byte>>)
    requires |names| >= 1
    ensures names[..|names| - 1] + [names[|names| - 1]] == names
  {
  }

  /** The pieces of declarations whose last has no type yield their names,
      the last with the `)` on it. */
  lemma UntypedTokens(leads: seq<seq<byte>>, names: seq<seq<byte>>, types: seq<seq<byte>>)
    requires |leads| == |names| == |types| >= 1
    requires forall k :: 0 <= k < |leads| ==> Blank(leads[k])
    requires forall k :: 0 <= k < |names| ==> PlainName(names[k])
    requires types[|types| - 1] == []
    ensures Tokens(DeclPieces(leads, names, types, [CloseParen])) ==
      names[..|names| - 1] + [names[|names| - 1] + [CloseParen]]
  {
    UntypedLastToken(LastLead(leads), names, types);
    DeclTokens(leads, names, types, [CloseParen], names[|names| - 1] + [CloseParen]);
  }

  /** A CREATE TABLE text whose plain column names each come with a type
      gives back exactly those names, whatever white space stands before
      each declaration: on one line, or one column per line. */
  lemma DeclaredColumnsRoundTrip(
    prefix: seq<byte>, leads: seq<seq<byte>>, names: seq<seq<byte>>, types: seq<seq<byte>>)
    requires OpenParen !in prefix
    requires |leads| == |names| == |types| >= 1
    requires forall k :: 0 <= k < |leads| ==> Blank(leads[k])
    requires forall k :: 0 <= k < |names| ==> PlainName(names[k]) && Comma !in types[k]
    requires types[|types| - 1] != []
    ensures DeclaredColumns(prefix + [OpenParen] + ColumnDefs(leads, names, types) + [CloseParen]) == names
  {
    DefsPieces(prefix, leads, names, types);
    TypedTokens(leads, names, types);
  }

  /** When the last column has no type, its piece runs into the closing
      parenthesis, and the `)` becomes part of its name. */
  lemma UntypedLastColumn(
    prefix: seq<byte>, leads: seq<seq<byte>>, names: seq<seq<byte>>, types: seq<seq<byte>>)
    requires OpenParen !in prefix
    requires |leads| == |names| == |types| >= 1
    requires forall k :: 0 <= k < |leads| ==> Blank(leads[k])
    requires forall k :: 0 <= k < |names| ==> PlainName(names[k]) && Comma !in types[k]
    requires types[|types| - 1] == []
    ensures DeclaredColumns(prefix + [OpenParen] + ColumnDefs(leads, names, types) + [CloseParen]) ==
      names[..|names| - 1] + [names[|names| - 1] + [CloseParen]]
  {
    DefsPieces(prefix, leads, names, types);
    UntypedTokens(leads, names, types);
  }

  /** `t(` and a line break, then one indented column per line, then `)`
      on a line of its own: the names come back without the line breaks. */
  lemma OneColumnPerLine(sql: seq<byte>)
    requires sql == [116, 40, 10, 9, 97, 32, 98, 44, 10, 9, 99, 32, 100, 10, 41]
    ensures DeclaredColumns(sql) == [[97], [99]]
  {
    var leads: seq<seq<byte>> := [[10, 9], [10, 9]];
    var names: seq<seq<byte>> := [[97], [99]];
    var types: seq<seq<byte>> := [[98], [100, 10]];
    ExampleDefs(leads, names, types);
    assert sql == [116] + [OpenParen] + ColumnDefs(leads, names, types) + [CloseParen];
    DeclaredColumnsRoundTrip([116], leads, names, types);
  }

  /** The declarations of OneColumnPerLine, and the conditions they meet. */
  lemma ExampleDefs(leads: seq<seq<byte>>, names: seq<seq<byte>>, types: seq<seq<byte>>)
    requires leads == [[10, 9], [10, 9]] && names == [[97], [99]] && types == [[98], [100, 10]]
    ensures ColumnDefs(leads, names, types) == [10, 9, 97, 32, 98, 44, 10, 9, 99, 32, 100, 10]
    ensures forall k :: 0 <= k < |leads| ==> Blank(leads[k])
    ensures forall k :: 0 <= k < |names| ==> PlainName(names[k]) && Comma !in types[k]
  {
    assert leads[1..] == [[10, 9]] && names[1..] == [[99]] && types[1..] == [[100, 10]];
  }
}
