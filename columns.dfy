/** The column map of `find_column_positions` (src/main.rs:301-314): the
    names a table's `CREATE TABLE` text declares, each with its position in
    the table's records.

    The text is cut into column definitions at every ',' after its first
    '('; each definition loses the spaces, newlines and '(' around it, is
    cut at its first space and loses the whitespace around what is left.
    When a name occurs twice, the later position is the one kept.
 */
module Columns {
  import opened Strings

  /** The characters `trim_matches` removes around a column definition. */
  const Punctuation: set<char> := {' ', '\n', '('}

  /** The name a column definition declares: a single word, cut from the
      definition. */
  function ColumnName(definition: string): (r: string)
    ensures ' ' !in r
    ensures |r| <= |definition|
  {
    Trim(Prefix(Trim(definition, Punctuation), ' '), Whitespace)
  }

  /** The names of the columns the `CREATE TABLE` text `sql` declares, one
      per comma-separated piece after its first '('. */
  function ColumnNames(sql: string): (r: seq<string>)
    ensures |r| >= 1
  {
    Names(Split(DropUntil(sql, '('), ','))
  }

  /** The names of the column definitions `pieces`. */
  function Names(pieces: seq<string>): (r: seq<string>)
    ensures |r| == |pieces|
    ensures forall i :: 0 <= i < |r| ==> r[i] == ColumnName(pieces[i])
  {
    seq(|pieces|, i requires 0 <= i < |pieces| => ColumnName(pieces[i]))
  }

  /** `.enumerate().map(|(i, x)| (x, i)).collect()`: each name with its
      position, the later of two equal names overwriting the earlier. */
  function Positions(names: seq<string>): (m: map<string, nat>)
    ensures forall k :: k in m <==> k in names
    ensures |m| <= |names|
    ensures forall k :: k in m ==> m[k] < |names| && names[m[k]] == k
    ensures forall k, j :: k in m && m[k] < j < |names| ==> names[j] != k
    decreases |names|
  {
    if names == [] then map[]
    else
      var init := names[..|names| - 1];
      var last := names[|names| - 1];
      assert names == init + [last];
      PositionsUpdate(init, last, Positions(init));
      Positions(init)[last := |names| - 1]
  }

  /** Adding the position of one more name keeps the column map exact. */
  lemma PositionsUpdate(init: seq<string>, last: string, m: map<string, nat>)
    requires forall k :: k in m <==> k in init
    requires |m| <= |init|
    requires forall k :: k in m ==> m[k] < |init| && init[m[k]] == k
    requires forall k, j :: k in m && m[k] < j < |init| ==> init[j] != k
    ensures var names := init + [last];
      var after := m[last := |init|];
      (forall k :: k in after <==> k in names) &&
      |after| <= |names| &&
      (forall k :: k in after ==> after[k] < |names| && names[after[k]] == k) &&
      (forall k, j :: k in after && after[k] < j < |names| ==> names[j] != k)
  {
    var names := init + [last];
    assert forall j :: 0 <= j < |init| ==> names[j] == init[j];
  }

  /** `find_column_positions`. */
  function FindColumnPositions(sql: string): (m: map<string, nat>)
    ensures forall k :: k in m <==> k in ColumnNames(sql)
    ensures forall k :: k in m ==> m[k] < |ColumnNames(sql)| && ColumnNames(sql)[m[k]] == k
    ensures forall k, j :: k in m && m[k] < j < |ColumnNames(sql)| ==> ColumnNames(sql)[j] != k
  {
    Positions(ColumnNames(sql))
  }

  predicate Distinct(names: seq<string>) {
    forall i, j :: 0 <= i < j < |names| ==> names[i] != names[j]
  }

  /** With no name declared twice, every name maps to its own position and
      the map has one entry per name, so every position is below the number
      of columns read from each record. */
  lemma DistinctPositions(names: seq<string>)
    requires Distinct(names)
    ensures |Positions(names)| == |names|
    ensures forall i :: 0 <= i < |names| ==> Positions(names)[names[i]] == i
    ensures forall k :: k in Positions(names) ==> Positions(names)[k] < |Positions(names)|
  {
    PositionsCount(names);
    var m := Positions(names);
    forall i | 0 <= i < |names|
      ensures m[names[i]] == i
    {
      assert names[i] in m;
    }
  }

  lemma {:induction false} PositionsCount(names: seq<string>)
    requires Distinct(names)
    ensures |Positions(names)| == |names|
    decreases |names|
  {
    if names != [] {
      var init := names[..|names| - 1];
      assert Distinct(init);
      PositionsCount(init);
      assert names[|names| - 1] !in init;
    }
  }

  // ---------------------------------------------------------------------
  // What a table definition declares

  /** The characters that may indent a column definition after its
      punctuation. */
  const Indent: set<char> := {'\t', '\r', '\U{B}', '\U{C}'}

  /** A column name as SQL text writes it: a word without whitespace,
      parentheses of its own or commas. */
  predicate IsIdentifier(name: string) {
    name != [] && forall i :: 0 <= i < |name| ==> name[i] !in Whitespace && name[i] != '(' && name[i] != ','
  }

  /** A column definition: punctuation, indentation, the name, and then
      nothing or a space-separated type and constraints without commas. */
  predicate IsDefinition(punct: string, indent: string, name: string, tail: string) {
    (forall i :: 0 <= i < |punct| ==> punct[i] in Punctuation) &&
    (forall i :: 0 <= i < |indent| ==> indent[i] in Indent) &&
    IsIdentifier(name) &&
    (tail == [] || tail[0] == ' ') && ',' !in tail
  }

  /** Trailing characters are trimmed no further than a last character
      outside `cs`. */
  lemma {:induction false} TrimEndStops(w: string, tail: string, cs: set<char>)
    requires w != [] && w[|w| - 1] !in cs
    ensures w <= TrimEnd(w + tail, cs) <= w + tail
    decreases |tail|
  {
    if tail == [] {
      assert w + tail == w;
    } else {
      var s := w + tail;
      if s[|s| - 1] in cs {
        assert s[..|s| - 1] == w + tail[..|tail| - 1];
        TrimEndStops(w, tail[..|tail| - 1], cs);
      }
    }
  }

  /** A column definition declares its name. */
  lemma ColumnNameOf(definition: string, punct: string, indent: string, name: string, tail: string)
    requires IsDefinition(punct, indent, name, tail)
    requires definition == punct + indent + name + tail
    ensures ColumnName(definition) == name
  {
    var v := Trim(definition, Punctuation);
    PunctuationTrimmed(punct, indent, name, tail);
    WordOf(indent, name, tail, v);
    IndentTrimmed(indent, name);
  }

  /** Trimming the punctuation leaves the indented name and part of what
      follows it. */
  lemma PunctuationTrimmed(punct: string, indent: string, name: string, tail: string)
    requires IsDefinition(punct, indent, name, tail)
    ensures indent + name <= Trim(punct + indent + name + tail, Punctuation) <= indent + name + tail
  {
    var w := indent + name;
    var u := w + tail;
    assert punct + indent + name + tail == punct + u;
    var first := if indent != [] then indent[0] else name[0];
    assert u[0] == first;
    assert first !in Punctuation by {
      if indent != [] {
        assert indent[0] in Indent;
      } else {
        NotPunctuation(name[0]);
      }
    }
    TrimStartOver(punct, u, Punctuation);
    assert Trim(punct + u, Punctuation) == TrimEnd(u, Punctuation);
    var last := name[|name| - 1];
    assert w[|w| - 1] == last;
    NotPunctuation(last);
    TrimEndStops(w, tail, Punctuation);
  }

  /** No character of a name is punctuation. */
  lemma NotPunctuation(c: char)
    requires c !in Whitespace && c != '('
    ensures c !in Punctuation
  {
  }

  /** Trimming the whitespace around the indented name leaves the name. */
  lemma IndentTrimmed(indent: string, name: string)
    requires (forall i :: 0 <= i < |indent| ==> indent[i] in Indent) && IsIdentifier(name)
    ensures Trim(indent + name, Whitespace) == name
  {
    TrimStartOver(indent, name, Whitespace);
  }

  /** What is left of a definition after its punctuation is trimmed is cut
      right after its name. */
  lemma WordOf(indent: string, name: string, tail: string, v: string)
    requires (forall i :: 0 <= i < |indent| ==> indent[i] in Indent) && IsIdentifier(name)
    requires tail == [] || tail[0] == ' '
    requires indent + name <= v <= indent + name + tail
    ensures Prefix(v, ' ') == indent + name
  {
    var w := indent + name;
    assert ' ' !in w by {
      assert forall i :: 0 <= i < |w| ==> w[i] == if i < |indent| then indent[i] else name[i - |indent|];
    }
    assert v == w + v[|w|..];
    assert v[|w|..] == [] || v[|w|] == tail[0];
    PrefixOf(w, v[|w|..], ' ');
  }

  /** The definitions of a table's columns. */
  function Definitions(puncts: seq<string>, indents: seq<string>, names: seq<string>, tails: seq<string>): (r: seq<string>)
    requires |puncts| == |indents| == |tails| == |names|
    ensures |r| == |names|
    ensures forall i :: 0 <= i < |names| ==> r[i] == puncts[i] + indents[i] + names[i] + tails[i]
  {
    seq(|names|, i requires 0 <= i < |names| => puncts[i] + indents[i] + names[i] + tails[i])
  }

  /** A `CREATE TABLE` text whose parenthesised part is column definitions
      separated by commas declares exactly those columns' names, in order. */
  lemma ColumnNamesOfTable(head: string, puncts: seq<string>, indents: seq<string>, names: seq<string>, tails: seq<string>)
    requires '(' !in head
    requires |names| >= 1 && |puncts| == |indents| == |tails| == |names|
    requires forall i :: 0 <= i < |names| ==> IsDefinition(puncts[i], indents[i], names[i], tails[i])
    ensures ColumnNames(head + "(" + Join(Definitions(puncts, indents, names, tails), ',')) == names
  {
    var defs := Definitions(puncts, indents, names, tails);
    DefinitionsHaveNoCommas(puncts, indents, names, tails);
    PiecesOfTable(head, defs);
    DefinitionNames(puncts, indents, names, tails);
  }

  /** The names of the pieces of a column list, the first still led by its
      '(', are the names the definitions declare. */
  lemma DefinitionNames(puncts: seq<string>, indents: seq<string>, names: seq<string>, tails: seq<string>)
    requires |names| >= 1 && |puncts| == |indents| == |tails| == |names|
    requires forall i :: 0 <= i < |names| ==> IsDefinition(puncts[i], indents[i], names[i], tails[i])
    ensures var defs := Definitions(puncts, indents, names, tails);
      Names([['('] + defs[0]] + defs[1..]) == names
  {
    var defs := Definitions(puncts, indents, names, tails);
    var pieces := [['('] + defs[0]] + defs[1..];
    assert |pieces| == |names|;
    assert pieces[0] == ['('] + defs[0];
    assert forall i :: 1 <= i < |names| ==> pieces[i] == defs[i];
    NamesOf(pieces, names, puncts, indents, tails);
  }

  lemma NamesOf(pieces: seq<string>, names: seq<string>, puncts: seq<string>, indents: seq<string>, tails: seq<string>)
    requires |names| >= 1 && |puncts| == |indents| == |tails| == |names| == |pieces|
    requires forall i :: 0 <= i < |names| ==> IsDefinition(puncts[i], indents[i], names[i], tails[i])
    requires pieces[0] == ['('] + (puncts[0] + indents[0] + names[0] + tails[0])
    requires forall i :: 1 <= i < |names| ==> pieces[i] == puncts[i] + indents[i] + names[i] + tails[i]
    ensures Names(pieces) == names
  {
    var r := Names(pieces);
    forall i | 0 <= i < |names|
      ensures r[i] == names[i]
    {
      if i == 0 {
        LeadingParenthesis(puncts[0], indents[0], names[0], tails[0]);
        ColumnNameOf(pieces[0], ['('] + puncts[0], indents[0], names[0], tails[0]);
      } else {
        ColumnNameOf(pieces[i], puncts[i], indents[i], names[i], tails[i]);
      }
    }
  }

  lemma DefinitionsHaveNoCommas(puncts: seq<string>, indents: seq<string>, names: seq<string>, tails: seq<string>)
    requires |puncts| == |indents| == |tails| == |names|
    requires forall i :: 0 <= i < |names| ==> IsDefinition(puncts[i], indents[i], names[i], tails[i])
    ensures forall i :: 0 <= i < |names| ==> ',' !in Definitions(puncts, indents, names, tails)[i]
  {
    forall i | 0 <= i < |names|
      ensures ',' !in puncts[i] + indents[i] + names[i] + tails[i]
    {
      assert ',' !in puncts[i] && ',' !in indents[i] && ',' !in names[i];
    }
  }

  /** The pieces of a table definition are its column definitions, the
      first one still led by the '('. */
  lemma PiecesOfTable(head: string, defs: seq<string>)
    requires '(' !in head && |defs| >= 1
    requires forall i :: 0 <= i < |defs| ==> ',' !in defs[i]
    ensures Split(DropUntil(head + "(" + Join(defs, ','), '('), ',') == [['('] + defs[0]] + defs[1..]
  {
    var body := Join(defs, ',');
    SplitJoin(defs, ',');
    DropUntilSkips(head, '(', body);
    assert head + "(" + body == head + ['('] + body;
    SplitCons('(', body, ',');
  }

  /** The '(' that opens the column list counts as the first definition's
      punctuation. */
  lemma LeadingParenthesis(punct: string, indent: string, name: string, tail: string)
    requires IsDefinition(punct, indent, name, tail)
    ensures ['('] + (punct + indent + name + tail) == (['('] + punct) + indent + name + tail
    ensures IsDefinition(['('] + punct, indent, name, tail)
  {
    var p := ['('] + punct;
    assert forall i :: 1 <= i < |p| ==> p[i] == punct[i - 1];
  }
}
