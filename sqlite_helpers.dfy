/**
 * The pure parts of cetlib/sqlite/helpers.cc: the schema text normalisation,
 * the decision made by hasTableWithSchema once the query has returned its
 * rows, the text of that query, and the URI built by detail::assembleURI.
 * Opening, querying and altering a database are not modelled; the rows of
 * the query are a parameter. HasTableWithSchema therefore takes those rows
 * directly, and SchemaQuery, the text of the query that produced them,
 * stands on its own: nothing else in the model uses it.
 */
module SqliteHelpers {

  import opened Errors

  // ---------------------------------------------------------------------
  // normalize

  /**
   * The characters matched by the regular-expression class \s in the classic
   * locale: space, tab, line feed, vertical tab, form feed, carriage return.
   */
  predicate IsSpace(c: char)
  {
    c == ' ' || c == '\t' || c == '\n' || c == '\U{B}' || c == '\U{C}' || c == '\r'
  }

  /** No whitespace other than ' ', and never two spaces in a row. */
  predicate Collapsed(s: string)
  {
    && (forall i :: 0 <= i < |s| && IsSpace(s[i]) ==> s[i] == ' ')
    && (forall i :: 0 <= i < |s| - 1 ==> !(s[i] == ' ' && s[i + 1] == ' '))
  }

  /** No comma is directly followed by a space. */
  predicate NoCommaSpace(s: string)
  {
    forall i :: 0 <= i < |s| - 1 ==> !(s[i] == ',' && s[i + 1] == ' ')
  }

  /** The text of s with every whitespace character removed. */
  function Visible(s: string): string
  {
    if s == [] then []
    else (if IsSpace(s[0]) then [] else [s[0]]) + Visible(s[1..])
  }

  /** s without its leading run of whitespace. */
  function DropSpaces(s: string): (r: string)
    ensures |r| <= |s|
    ensures r == [] || !IsSpace(r[0])
  {
    if s != [] && IsSpace(s[0]) then DropSpaces(s[1..]) else s
  }

  /** DropSpaces(s) is the suffix of s that follows a prefix made only of whitespace. */
  lemma {:induction false} DropSpacesSuffix(s: string)
    ensures DropSpaces(s) == s[|s| - |DropSpaces(s)|..]
    ensures AllSpace(s[..|s| - |DropSpaces(s)|])
  {
    if s != [] && IsSpace(s[0]) {
      DropSpacesSuffix(s[1..]);
      var k := |s| - |DropSpaces(s)|;
      assert s[1..][k - 1..] == s[k..];
      assert s[..k] == [s[0]] + s[1..][..k - 1];
    } else {
      assert s[..0] == [];
    }
  }

  /**
   * regex_replace(s, "\s+", " "): scanning from the left, each maximal run of
   * whitespace is replaced by a single space. The result is empty only for
   * empty s, and starts with s[0], or with ' ' when s[0] is whitespace.
   */
  function CollapseWhitespace(s: string): (r: string)
    ensures r == [] <==> s == []
    ensures s != [] ==> r[0] == if IsSpace(s[0]) then ' ' else s[0]
    decreases |s|
  {
    if s == [] then []
    else if IsSpace(s[0]) then [' '] + CollapseWhitespace(DropSpaces(s[1..]))
    else [s[0]] + CollapseWhitespace(s[1..])
  }

  /**
   * regex_replace(s, ", ", ","): scanning from the left, each occurrence of a
   * comma followed by a space is replaced by the comma alone. The result is
   * empty only for empty s, and its first character is that of s.
   */
  function RemoveSpaceAfterComma(s: string): (r: string)
    ensures r == [] <==> s == []
    ensures s != [] ==> r[0] == s[0]
  {
    if |s| >= 2 && s[0] == ',' && s[1] == ' ' then [','] + RemoveSpaceAfterComma(s[2..])
    else if s == [] then []
    else [s[0]] + RemoveSpaceAfterComma(s[1..])
  }

  /**
   * normalize: whitespace runs become one space, then spaces after commas go.
   * The result is never longer, has only plain single spaces and no comma
   * followed by a space.
   */
  function Normalize(s: string): (r: string)
    ensures |r| <= |s|
    ensures Collapsed(r) && NoCommaSpace(r)
  {
    CollapseWhitespaceShorter(s);
    RemoveSpaceAfterCommaShorter(CollapseWhitespace(s));
    CollapseWhitespaceCollapsed(s);
    RemoveSpaceAfterCommaKeepsCollapsed(CollapseWhitespace(s));
    RemoveSpaceAfterComma(CollapseWhitespace(s))
  }

  /** Replacing whitespace runs by single spaces never lengthens a string. */
  lemma {:induction false} CollapseWhitespaceShorter(s: string)
    ensures |CollapseWhitespace(s)| <= |s|
    decreases |s|
  {
    if s != [] {
      if IsSpace(s[0]) {
        CollapseWhitespaceShorter(DropSpaces(s[1..]));
      } else {
        CollapseWhitespaceShorter(s[1..]);
      }
    }
  }

  /** Replacing ", " by "," never lengthens a string. */
  lemma {:induction false} RemoveSpaceAfterCommaShorter(s: string)
    ensures |RemoveSpaceAfterComma(s)| <= |s|
  {
    if |s| >= 2 && s[0] == ',' && s[1] == ' ' {
      RemoveSpaceAfterCommaShorter(s[2..]);
    } else if s != [] {
      RemoveSpaceAfterCommaShorter(s[1..]);
    }
  }

  lemma ConsCollapsed(c: char, t: string)
    ensures Collapsed([c] + t) <==>
            (IsSpace(c) ==> c == ' ') && (t != [] ==> !(c == ' ' && t[0] == ' ')) && Collapsed(t)
  {
    var s := [c] + t;
    assert s[1..] == t;
    if (IsSpace(c) ==> c == ' ') && (t != [] ==> !(c == ' ' && t[0] == ' ')) && Collapsed(t) {
      forall i | 0 <= i < |s| && IsSpace(s[i])
        ensures s[i] == ' '
      {
        if i > 0 {
          assert s[i] == t[i - 1];
        }
      }
      forall i | 0 <= i < |s| - 1
        ensures !(s[i] == ' ' && s[i + 1] == ' ')
      {
        if i > 0 {
          assert s[i] == t[i - 1] && s[i + 1] == t[i];
        }
      }
    }
    if Collapsed(s) {
      assert s[0] == c;
      if t != [] {
        assert s[1] == t[0];
      }
      forall i | 0 <= i < |t| && IsSpace(t[i])
        ensures t[i] == ' '
      {
        assert t[i] == s[i + 1];
      }
      forall i | 0 <= i < |t| - 1
        ensures !(t[i] == ' ' && t[i + 1] == ' ')
      {
        assert t[i] == s[i + 1] && t[i + 1] == s[i + 2];
      }
    }
  }

  lemma ConsNoCommaSpace(c: char, t: string)
    ensures NoCommaSpace([c] + t) <==> (t != [] ==> !(c == ',' && t[0] == ' ')) && NoCommaSpace(t)
  {
    var s := [c] + t;
    if (t != [] ==> !(c == ',' && t[0] == ' ')) && NoCommaSpace(t) {
      forall i | 0 <= i < |s| - 1
        ensures !(s[i] == ',' && s[i + 1] == ' ')
      {
        if i > 0 {
          assert s[i] == t[i - 1] && s[i + 1] == t[i];
        }
      }
    }
    if NoCommaSpace(s) {
      if t != [] {
        assert s[0] == c && s[1] == t[0];
      }
      forall i | 0 <= i < |t| - 1
        ensures !(t[i] == ',' && t[i + 1] == ' ')
      {
        assert t[i] == s[i + 1] && t[i + 1] == s[i + 2];
      }
    }
  }

  /** After the first replacement, only plain single spaces remain. */
  lemma {:induction false} CollapseWhitespaceCollapsed(s: string)
    ensures Collapsed(CollapseWhitespace(s))
    decreases |s|
  {
    if s != [] {
      if IsSpace(s[0]) {
        var t := DropSpaces(s[1..]);
        CollapseWhitespaceCollapsed(t);
        ConsCollapsed(' ', CollapseWhitespace(t));
      } else {
        var t := s[1..];
        CollapseWhitespaceCollapsed(t);
        ConsCollapsed(s[0], CollapseWhitespace(t));
      }
    }
  }

  /** The second replacement keeps spaces collapsed and leaves no comma-space. */
  lemma {:induction false} RemoveSpaceAfterCommaKeepsCollapsed(s: string)
    requires Collapsed(s)
    ensures Collapsed(RemoveSpaceAfterComma(s)) && NoCommaSpace(RemoveSpaceAfterComma(s))
  {
    if |s| >= 2 && s[0] == ',' && s[1] == ' ' {
      var t := s[2..];
      ConsCollapsed(s[0], s[1..]);
      ConsCollapsed(s[1], t);
      RemoveSpaceAfterCommaKeepsCollapsed(t);
      ConsCollapsed(',', RemoveSpaceAfterComma(t));
      ConsNoCommaSpace(',', RemoveSpaceAfterComma(t));
    } else if s != [] {
      var t := s[1..];
      assert s == [s[0]] + t;
      ConsCollapsed(s[0], t);
      RemoveSpaceAfterCommaKeepsCollapsed(t);
      ConsCollapsed(s[0], RemoveSpaceAfterComma(t));
      ConsNoCommaSpace(s[0], RemoveSpaceAfterComma(t));
    }
  }

  /** Text that is already collapsed is left alone by the first replacement. */
  lemma {:induction false} CollapseWhitespaceFixesCollapsed(s: string)
    requires Collapsed(s)
    ensures CollapseWhitespace(s) == s
  {
    if s != [] {
      var t := s[1..];
      assert s == [s[0]] + t;
      ConsCollapsed(s[0], t);
      CollapseWhitespaceFixesCollapsed(t);
    }
  }

  /** Text without a comma-space is left alone by the second replacement. */
  lemma {:induction false} RemoveSpaceAfterCommaFixes(s: string)
    requires NoCommaSpace(s)
    ensures RemoveSpaceAfterComma(s) == s
  {
    if s != [] {
      var t := s[1..];
      assert s == [s[0]] + t;
      ConsNoCommaSpace(s[0], t);
      RemoveSpaceAfterCommaFixes(t);
    }
  }

  /** normalize is idempotent. */
  lemma NormalizeIdempotent(s: string)
    ensures Normalize(Normalize(s)) == Normalize(s)
  {
    var n := Normalize(s);
    CollapseWhitespaceFixesCollapsed(n);
    RemoveSpaceAfterCommaFixes(n);
  }

  lemma {:induction false} VisibleDropSpaces(s: string)
    ensures Visible(DropSpaces(s)) == Visible(s)
  {
    if s != [] && IsSpace(s[0]) {
      VisibleDropSpaces(s[1..]);
    }
  }

  lemma VisibleCons(c: char, t: string)
    ensures Visible([c] + t) == (if IsSpace(c) then [] else [c]) + Visible(t)
  {
    assert ([c] + t)[1..] == t;
  }

  lemma {:induction false} VisibleCollapseWhitespace(s: string)
    ensures Visible(CollapseWhitespace(s)) == Visible(s)
    decreases |s|
  {
    if s != [] {
      if IsSpace(s[0]) {
        var t := DropSpaces(s[1..]);
        VisibleCollapseWhitespace(t);
        VisibleDropSpaces(s[1..]);
        VisibleCons(' ', CollapseWhitespace(t));
      } else {
        VisibleCollapseWhitespace(s[1..]);
        VisibleCons(s[0], CollapseWhitespace(s[1..]));
      }
    }
  }

  lemma {:induction false} VisibleRemoveSpaceAfterComma(s: string)
    ensures Visible(RemoveSpaceAfterComma(s)) == Visible(s)
  {
    if |s| >= 2 && s[0] == ',' && s[1] == ' ' {
      VisibleRemoveSpaceAfterComma(s[2..]);
      VisibleCons(',', RemoveSpaceAfterComma(s[2..]));
      assert s[1..] == [' '] + s[2..];
      VisibleCons(' ', s[2..]);
    } else if s != [] {
      VisibleRemoveSpaceAfterComma(s[1..]);
      VisibleCons(s[0], RemoveSpaceAfterComma(s[1..]));
    }
  }

  /** normalize changes only whitespace: the text without whitespace is the same. */
  lemma NormalizeKeepsVisibleText(s: string)
    ensures Visible(Normalize(s)) == Visible(s)
  {
    VisibleRemoveSpaceAfterComma(CollapseWhitespace(s));
    VisibleCollapseWhitespace(s);
  }

  /** Every character of ws is whitespace. */
  predicate AllSpace(ws: string)
  {
    forall i :: 0 <= i < |ws| ==> IsSpace(ws[i])
  }

  /** s is empty or ends in a character that is not whitespace. */
  predicate EndsVisible(s: string)
  {
    s == [] || !IsSpace(s[|s| - 1])
  }

  /** s is empty or starts with a character that is not whitespace. */
  predicate StartsVisible(s: string)
  {
    s == [] || !IsSpace(s[0])
  }

  /** A whitespace run in front of text that starts visibly is dropped entirely. */
  lemma {:induction false} DropSpacesRun(ws: string, q: string)
    requires AllSpace(ws) && StartsVisible(q)
    ensures DropSpaces(ws + q) == q
  {
    if ws == [] {
      assert ws + q == q;
    } else {
      assert (ws + q)[1..] == ws[1..] + q;
      DropSpacesRun(ws[1..], q);
    }
  }

  /** Dropping leading whitespace does not reach past a visible last character. */
  lemma {:induction false} DropSpacesAppend(p: string, t: string)
    requires p != [] && EndsVisible(p)
    ensures DropSpaces(p + t) == DropSpaces(p) + t
  {
    if IsSpace(p[0]) {
      assert (p + t)[1..] == p[1..] + t;
      DropSpacesAppend(p[1..], t);
    }
  }

  /** The leading whitespace of a string that ends visibly leaves a non-empty rest ending the same way. */
  lemma DropSpacesKeepsLast(p: string)
    requires p != [] && EndsVisible(p)
    ensures DropSpaces(p) != [] && DropSpaces(p)[|DropSpaces(p)| - 1] == p[|p| - 1]
  {
    DropSpacesSuffix(p);
    assert p[..|p|][|p| - 1] == p[|p| - 1];
  }

  /** One step of CollapseWhitespace on a string that starts with c. */
  lemma CollapseWhitespaceCons(c: char, t: string)
    ensures CollapseWhitespace([c] + t) ==
            if IsSpace(c) then [' '] + CollapseWhitespace(DropSpaces(t)) else [c] + CollapseWhitespace(t)
  {
    assert ([c] + t)[1..] == t;
  }

  /** CollapseWhitespace distributes over a split after a visible character. */
  lemma {:induction false} CollapseWhitespaceAppend(p: string, t: string)
    requires EndsVisible(p)
    ensures CollapseWhitespace(p + t) == CollapseWhitespace(p) + CollapseWhitespace(t)
    decreases |p|
  {
    if p == [] {
      assert p + t == t;
    } else {
      var c, p' := p[0], p[1..];
      assert p == [c] + p';
      assert p + t == [c] + (p' + t);
      CollapseWhitespaceCons(c, p' + t);
      CollapseWhitespaceCons(c, p');
      if IsSpace(c) {
        var d := DropSpaces(p');
        DropSpacesAppend(p', t);
        DropSpacesKeepsLast(p');
        CollapseWhitespaceAppend(d, t);
        assert [' '] + (CollapseWhitespace(d) + CollapseWhitespace(t))
            == [' '] + CollapseWhitespace(d) + CollapseWhitespace(t);
      } else {
        CollapseWhitespaceAppend(p', t);
        assert [c] + (CollapseWhitespace(p') + CollapseWhitespace(t))
            == [c] + CollapseWhitespace(p') + CollapseWhitespace(t);
      }
    }
  }

  /** A visible last character is also the last character after CollapseWhitespace. */
  lemma {:induction false} CollapseWhitespaceLast(p: string)
    requires p != [] && EndsVisible(p)
    ensures CollapseWhitespace(p) != []
    ensures CollapseWhitespace(p)[|CollapseWhitespace(p)| - 1] == p[|p| - 1]
    decreases |p|
  {
    if IsSpace(p[0]) {
      DropSpacesKeepsLast(p[1..]);
      CollapseWhitespaceLast(DropSpaces(p[1..]));
    } else if |p| > 1 {
      CollapseWhitespaceLast(p[1..]);
    }
  }

  /** A leading whitespace run before visible text collapses to one space. */
  lemma CollapseWhitespaceLeadingRun(ws: string, q: string)
    requires ws != [] && AllSpace(ws) && StartsVisible(q)
    ensures CollapseWhitespace(ws + q) == [' '] + CollapseWhitespace(q)
  {
    var t := ws + q;
    assert t[0] == ws[0];
    assert t[1..] == ws[1..] + q;
    DropSpacesRun(ws[1..], q);
  }

  /**
   * A whitespace run between visible characters, of whatever length and
   * kind, becomes exactly one space.
   */
  lemma CollapseWhitespaceRun(p: string, ws: string, q: string)
    requires ws != [] && AllSpace(ws)
    requires EndsVisible(p) && StartsVisible(q)
    ensures CollapseWhitespace(p + ws + q) == CollapseWhitespace(p) + " " + CollapseWhitespace(q)
  {
    assert p + ws + q == p + (ws + q);
    CollapseWhitespaceAppend(p, ws + q);
    CollapseWhitespaceLeadingRun(ws, q);
  }

  /** One step of RemoveSpaceAfterComma on a string that does not start with ", ". */
  lemma RemoveSpaceAfterCommaCons(c: char, t: string)
    requires !(c == ',' && t != [] && t[0] == ' ')
    ensures RemoveSpaceAfterComma([c] + t) == [c] + RemoveSpaceAfterComma(t)
  {
    assert ([c] + t)[1..] == t;
  }

  /** One step of RemoveSpaceAfterComma on a string that starts with ", ". */
  lemma RemoveSpaceAfterCommaSkip(t: string)
    ensures RemoveSpaceAfterComma(", " + t) == [','] + RemoveSpaceAfterComma(t)
  {
    assert (", " + t)[2..] == t;
  }

  /** The ", " step of RemoveSpaceAfterCommaAppend. */
  lemma RemoveSpaceAfterCommaAppendSkip(p: string, t: string)
    requires RemoveSpaceAfterComma(p + t) == RemoveSpaceAfterComma(p) + RemoveSpaceAfterComma(t)
    ensures RemoveSpaceAfterComma(", " + p + t) == RemoveSpaceAfterComma(", " + p) + RemoveSpaceAfterComma(t)
  {
    calc {
      RemoveSpaceAfterComma(", " + p + t);
      { assert ", " + p + t == ", " + (p + t); }
      RemoveSpaceAfterComma(", " + (p + t));
      { RemoveSpaceAfterCommaSkip(p + t); }
      [','] + RemoveSpaceAfterComma(p + t);
      [','] + (RemoveSpaceAfterComma(p) + RemoveSpaceAfterComma(t));
      ([','] + RemoveSpaceAfterComma(p)) + RemoveSpaceAfterComma(t);
      { RemoveSpaceAfterCommaSkip(p); }
      RemoveSpaceAfterComma(", " + p) + RemoveSpaceAfterComma(t);
    }
  }

  /** The single-character step of RemoveSpaceAfterCommaAppend. */
  lemma RemoveSpaceAfterCommaAppendCons(c: char, p: string, t: string)
    requires !(c == ',' && p + t != [] && (p + t)[0] == ' ')
    requires !(c == ',' && p != [] && p[0] == ' ')
    requires RemoveSpaceAfterComma(p + t) == RemoveSpaceAfterComma(p) + RemoveSpaceAfterComma(t)
    ensures RemoveSpaceAfterComma([c] + p + t) == RemoveSpaceAfterComma([c] + p) + RemoveSpaceAfterComma(t)
  {
    calc {
      RemoveSpaceAfterComma([c] + p + t);
      { assert [c] + p + t == [c] + (p + t); }
      RemoveSpaceAfterComma([c] + (p + t));
      { RemoveSpaceAfterCommaCons(c, p + t); }
      [c] + RemoveSpaceAfterComma(p + t);
      [c] + (RemoveSpaceAfterComma(p) + RemoveSpaceAfterComma(t));
      ([c] + RemoveSpaceAfterComma(p)) + RemoveSpaceAfterComma(t);
      { RemoveSpaceAfterCommaCons(c, p); }
      RemoveSpaceAfterComma([c] + p) + RemoveSpaceAfterComma(t);
    }
  }

  /** RemoveSpaceAfterComma distributes over a split that does not cut a ", ". */
  lemma {:induction false} RemoveSpaceAfterCommaAppend(p: string, t: string)
    requires !(p != [] && p[|p| - 1] == ',' && t != [] && t[0] == ' ')
    ensures RemoveSpaceAfterComma(p + t) == RemoveSpaceAfterComma(p) + RemoveSpaceAfterComma(t)
  {
    if p == [] {
      assert p + t == t;
    } else if |p| >= 2 && p[0] == ',' && p[1] == ' ' {
      var p' := p[2..];
      RemoveSpaceAfterCommaAppend(p', t);
      RemoveSpaceAfterCommaAppendSkip(p', t);
      assert p == ", " + p';
    } else {
      var c, p' := p[0], p[1..];
      assert p' != [] ==> p'[|p'| - 1] == p[|p| - 1];
      RemoveSpaceAfterCommaAppend(p', t);
      assert !(c == ',' && p' + t != [] && (p' + t)[0] == ' ') by {
        if p' == [] {
          assert p' + t == t;
        } else {
          assert (p' + t)[0] == p[1];
        }
      }
      RemoveSpaceAfterCommaAppendCons(c, p', t);
      assert p == [c] + p';
    }
  }

  /** Exactly the space after the comma goes; what is on either side is processed on its own. */
  lemma RemoveSpaceAfterCommaAtComma(p: string, q: string)
    ensures RemoveSpaceAfterComma(p + ", " + q) == RemoveSpaceAfterComma(p) + "," + RemoveSpaceAfterComma(q)
  {
    assert p + ", " + q == p + (", " + q);
    RemoveSpaceAfterCommaAppend(p, ", " + q);
    RemoveSpaceAfterCommaSkip(q);
    assert RemoveSpaceAfterComma(p) + ([','] + RemoveSpaceAfterComma(q))
        == RemoveSpaceAfterComma(p) + "," + RemoveSpaceAfterComma(q);
  }

  // ---------------------------------------------------------------------
  // hasTableWithSchema

  const SchemaQueryPrefix: string := "select sql from sqlite_master where type=\"table\" and name=\""

  /** The query hasTableWithSchema sends: the table's name, quoted, after the fixed prefix. */
  function SchemaQuery(name: string): (cmd: string)
    ensures |cmd| == |SchemaQueryPrefix| + |name| + 1
    ensures cmd[..|SchemaQueryPrefix|] == SchemaQueryPrefix && cmd[|cmd| - 1] == '"'
    ensures cmd[|SchemaQueryPrefix|..|cmd| - 1] == name
  {
    SchemaQueryPrefix + name + "\""
  }

  /** Different table names give different queries. */
  lemma SchemaQueryInjective(a: string, b: string)
    requires SchemaQuery(a) == SchemaQuery(b)
    ensures a == b
  {
    var p := |SchemaQueryPrefix|;
    assert a == SchemaQuery(a)[p..|SchemaQuery(a)| - 1];
  }

  /**
   * hasTableWithSchema, given the rows its query returned: false for no row,
   * an SQLExecutionError for more than one, and for exactly one row true when
   * the normalized stored and expected schemas agree, an SQLExecutionError
   * otherwise.
   */
  function HasTableWithSchema(rows: seq<string>, expectedSchema: string): (r: Result<bool>)
    ensures r == Success(false) <==> rows == []
    ensures r == Success(true) <==> |rows| == 1 && Normalize(rows[0]) == Normalize(expectedSchema)
    ensures |rows| > 1 ==> r == Failure(SQLExecutionError)
    ensures r.Failure? ==> r.code == SQLExecutionError && rows != []
  {
    if |rows| == 0 then Success(false)
    else if |rows| != 1 then Failure(SQLExecutionError)
    else if Normalize(rows[0]) == Normalize(expectedSchema) then Success(true)
    else Failure(SQLExecutionError)
  }

  /** A table whose stored schema is the normalized expected one is accepted. */
  lemma NormalizedSchemaAccepted(expectedSchema: string)
    ensures HasTableWithSchema([Normalize(expectedSchema)], expectedSchema) == Success(true)
  {
    NormalizeIdempotent(expectedSchema);
  }

  /** Schemas that differ in anything but whitespace are rejected. */
  lemma DifferentTextRejected(stored: string, expectedSchema: string)
    requires Visible(stored) != Visible(expectedSchema)
    ensures HasTableWithSchema([stored], expectedSchema) == Failure(SQLExecutionError)
  {
    NormalizeKeepsVisibleText(stored);
    NormalizeKeepsVisibleText(expectedSchema);
  }

  /** Schemas that differ only in the length or kind of one whitespace run match. */
  lemma WhitespaceRunsIrrelevant(p: string, ws: string, ws': string, q: string)
    requires ws != [] && AllSpace(ws) && ws' != [] && AllSpace(ws')
    requires EndsVisible(p) && StartsVisible(q)
    ensures HasTableWithSchema([p + ws + q], p + ws' + q) == Success(true)
  {
    CollapseWhitespaceRun(p, ws, q);
    CollapseWhitespaceRun(p, ws', q);
  }

  /** A comma after visible text is kept by CollapseWhitespace, with each side processed on its own. */
  lemma CollapseWhitespaceComma(p: string, q: string)
    requires EndsVisible(p)
    ensures CollapseWhitespace(p + "," + q) == CollapseWhitespace(p) + "," + CollapseWhitespace(q)
  {
    assert p + "," + q == p + ("," + q);
    CollapseWhitespaceAppend(p, "," + q);
    assert ("," + q)[1..] == q;
  }

  /** The normal form of a comma followed by whitespace. */
  lemma NormalizeCommaRun(p: string, ws: string, q: string)
    requires ws != [] && AllSpace(ws)
    requires EndsVisible(p) && StartsVisible(q)
    ensures RemoveSpaceAfterComma(CollapseWhitespace(p + "," + ws + q)) ==
            RemoveSpaceAfterComma(CollapseWhitespace(p)) + "," + RemoveSpaceAfterComma(CollapseWhitespace(q))
  {
    var cp, cq := CollapseWhitespace(p), CollapseWhitespace(q);
    var pc := p + ",";
    assert EndsVisible(pc);
    assert p + "," + ws + q == pc + ws + q;
    CollapseWhitespaceRun(pc, ws, q);
    assert CollapseWhitespace(pc) == cp + "," by {
      CollapseWhitespaceComma(p, []);
      assert p + "," + [] == pc;
    }
    assert cp + "," + " " + cq == cp + ", " + cq;
    RemoveSpaceAfterCommaAtComma(cp, cq);
  }

  /** The normal form of a comma between visible characters. */
  lemma NormalizeComma(p: string, q: string)
    requires EndsVisible(p) && StartsVisible(q)
    ensures RemoveSpaceAfterComma(CollapseWhitespace(p + "," + q)) ==
            RemoveSpaceAfterComma(CollapseWhitespace(p)) + "," + RemoveSpaceAfterComma(CollapseWhitespace(q))
  {
    var cp, cq := CollapseWhitespace(p), CollapseWhitespace(q);
    calc {
      RemoveSpaceAfterComma(CollapseWhitespace(p + "," + q));
      { CollapseWhitespaceComma(p, q); }
      RemoveSpaceAfterComma(cp + "," + cq);
      { assert cp + "," + cq == cp + ("," + cq); }
      RemoveSpaceAfterComma(cp + ("," + cq));
      { RemoveSpaceAfterCommaAppend(cp, "," + cq); }
      RemoveSpaceAfterComma(cp) + RemoveSpaceAfterComma("," + cq);
      { RemoveSpaceAfterCommaCons(',', cq); }
      RemoveSpaceAfterComma(cp) + ([','] + RemoveSpaceAfterComma(cq));
      RemoveSpaceAfterComma(cp) + "," + RemoveSpaceAfterComma(cq);
    }
  }

  /** Whitespace right after a comma does not matter to the comparison. */
  lemma SpaceAfterCommaIrrelevant(p: string, ws: string, q: string)
    requires ws != [] && AllSpace(ws)
    requires EndsVisible(p) && StartsVisible(q)
    ensures HasTableWithSchema([p + "," + ws + q], p + "," + q) == Success(true)
  {
    NormalizeCommaRun(p, ws, q);
    NormalizeComma(p, q);
  }

  /**
   * A space that separates two words is significant: removing it makes the
   * stored schema mismatch.
   */
  lemma SeparatingSpaceKept(p: string, q: string)
    requires p != [] && EndsVisible(p) && p[|p| - 1] != ','
    requires StartsVisible(q)
    ensures HasTableWithSchema([p + " " + q], p + q) == Failure(SQLExecutionError)
  {
    var cp, cq := CollapseWhitespace(p), CollapseWhitespace(q);
    CollapseWhitespaceLast(p);
    assert AllSpace(" ");
    CollapseWhitespaceRun(p, " ", q);
    assert cp + " " + cq == cp + (" " + cq);
    RemoveSpaceAfterCommaAppend(cp, " " + cq);
    assert (" " + cq)[1..] == cq;
    CollapseWhitespaceAppend(p, q);
    RemoveSpaceAfterCommaAppend(cp, cq);
    assert |Normalize(p + " " + q)| == |Normalize(p + q)| + 1;
  }

  /** The comparison of one stored schema does not depend on which side is which. */
  lemma SchemaMatchSymmetric(a: string, b: string)
    ensures HasTableWithSchema([a], b) == HasTableWithSchema([b], a)
  {
  }

  // ---------------------------------------------------------------------
  // detail::assembleURI

  /** std::string::substr(pos, count) for pos within the string. */
  function Substr(s: string, pos: nat, count: nat): (r: string)
    requires pos <= |s|
    ensures |r| == if pos + count <= |s| then count else |s| - pos
    ensures r == s[pos..pos + |r|]
  {
    if pos + count <= |s| then s[pos..pos + count] else s[pos..]
  }

  const UriScheme: string := "file:"
  const UriQuery: string := "?nolock=1"

  /**
   * assembleURI: a filename that already starts with "file:" raises
   * OtherError; any other is wrapped as "file:" + filename + "?nolock=1".
   */
  function AssembleURI(filename: string): (r: Result<string>)
    ensures r.Failure? <==> |filename| >= 5 && filename[..5] == UriScheme
    ensures r.Failure? ==> r.code == OtherError
    ensures r.Success? ==>
              && |r.value| == |filename| + |UriScheme| + |UriQuery|
              && r.value[..|UriScheme|] == UriScheme
              && r.value[|r.value| - |UriQuery|..] == UriQuery
              && r.value[|UriScheme|..|r.value| - |UriQuery|] == filename
  {
    if Substr(filename, 0, 5) == UriScheme then Failure(OtherError)
    else Success(UriScheme + filename + UriQuery)
  }

  /** Filenames shorter than the scheme are never rejected. */
  lemma ShortFilenamesAccepted(filename: string)
    requires |filename| < 5
    ensures AssembleURI(filename).Success?
  {
  }

  /** An assembled URI cannot be wrapped again: it starts with "file:". */
  lemma AssembledURIRejected(filename: string)
    requires AssembleURI(filename).Success?
    ensures AssembleURI(AssembleURI(filename).value) == Failure(OtherError)
  {
    var u := AssembleURI(filename).value;
    assert u[..5] == UriScheme;
  }

  /** Different accepted filenames give different URIs. */
  lemma AssembleURIInjective(a: string, b: string)
    requires AssembleURI(a).Success? && AssembleURI(a) == AssembleURI(b)
    ensures a == b
  {
  }
}
