/**
 * The parsing half of `_compileValidationRules`: a rule string such as
 * `"required,!isEmpty,len:2:10"` is split on `,` into clauses, and each
 * clause is split on `:` into a rule name (one leading `!` stripped and
 * recorded as `inverse`) and its positional string parameters.
 */
module RuleParser {

  /** Number of occurrences of `c` in `s`. */
  function Count(s: string, c: char): nat
    decreases |s|
  {
    if s == [] then 0 else (if s[0] == c then 1 else 0) + Count(s[1..], c)
  }

  /**
   * `s.split(sep)` for a one-character separator: one piece per separator
   * plus one, none containing the separator (so `"".split(",")` is `[""]`
   * and `"a,".split(",")` is `["a", ""]`).
   */
  function Split(s: string, sep: char): (parts: seq<string>)
    ensures |parts| == Count(s, sep) + 1
    ensures forall i :: 0 <= i < |parts| ==> sep !in parts[i]
    decreases |s|
  {
    if s == [] then [""]
    else
      var rest := Split(s[1..], sep);
      if s[0] == sep then [""] + rest
      else [[s[0]] + rest[0]] + rest[1..]
  }

  /** `parts.join(sep)`: the inverse of `Split`. */
  function Join(parts: seq<string>, sep: char): string
    requires |parts| >= 1
    decreases |parts|
  {
    if |parts| == 1 then parts[0] else parts[0] + [sep] + Join(parts[1..], sep)
  }

  lemma {:induction false} JoinConsHead(c: char, p: string, ps: seq<string>, sep: char)
    ensures Join([[c] + p] + ps, sep) == [c] + Join([p] + ps, sep)
  {
    if ps != [] {
      assert ([[c] + p] + ps)[1..] == ps;
      assert ([p] + ps)[1..] == ps;
    }
  }

  /** Joining the pieces of a split gives back the string. */
  lemma {:induction false} JoinSplit(s: string, sep: char)
    ensures Join(Split(s, sep), sep) == s
    decreases |s|
  {
    if s != [] {
      JoinSplit(s[1..], sep);
      var rest := Split(s[1..], sep);
      if s[0] == sep {
        assert ([""] + rest)[1..] == rest;
      } else {
        assert rest == [rest[0]] + rest[1..];
        JoinConsHead(s[0], rest[0], rest[1..], sep);
      }
    }
  }

  lemma {:induction false} SplitWithoutSeparator(p: string, sep: char)
    requires sep !in p
    ensures Split(p, sep) == [p]
    decreases |p|
  {
    if p != [] {
      SplitWithoutSeparator(p[1..], sep);
      assert [p[0]] + p[1..] == p;
    }
  }

  lemma {:induction false} SplitAfterPiece(p: string, t: string, sep: char)
    requires sep !in p
    ensures Split(p + [sep] + t, sep) == [p] + Split(t, sep)
    decreases |p|
  {
    var s := p + [sep] + t;
    if p == [] {
      assert s[1..] == t;
    } else {
      assert s[1..] == p[1..] + [sep] + t;
      SplitAfterPiece(p[1..], t, sep);
      assert [p[0]] + p[1..] == p;
    }
  }

  /** Splitting a join of separator-free pieces gives back the pieces. */
  lemma {:induction false} SplitJoin(parts: seq<string>, sep: char)
    requires |parts| >= 1
    requires forall i :: 0 <= i < |parts| ==> sep !in parts[i]
    ensures Split(Join(parts, sep), sep) == parts
    decreases |parts|
  {
    if |parts| == 1 {
      SplitWithoutSeparator(parts[0], sep);
    } else {
      SplitJoin(parts[1..], sep);
      SplitAfterPiece(parts[0], Join(parts[1..], sep), sep);
      assert [parts[0]] + parts[1..] == parts;
    }
  }

  /** A character that is neither the separator nor in any piece is not in the join. */
  lemma {:induction false} JoinAvoids(parts: seq<string>, sep: char, x: char)
    requires |parts| >= 1
    requires x != sep
    requires forall i :: 0 <= i < |parts| ==> x !in parts[i]
    ensures x !in Join(parts, sep)
    decreases |parts|
  {
    if |parts| > 1 {
      JoinAvoids(parts[1..], sep, x);
    }
  }

  /** One parsed clause of a rule string: `{name, inverse, params}`. */
  datatype Clause = Clause(name: string, inverse: bool, params: seq<string>)

  /** One clause: `rule.split(':')`, `params.shift()`, strip one leading `!`. */
  function ParseClause(text: string): (c: Clause)
    ensures ':' !in c.name
    ensures forall k :: 0 <= k < |c.params| ==> ':' !in c.params[k]
    ensures |c.params| == Count(text, ':')
  {
    var tokens := Split(text, ':');
    var head := tokens[0];
    var inverse := |head| > 0 && head[0] == '!';
    Clause(if inverse then head[1..] else head, inverse, tokens[1..])
  }

  /** The clauses of a rule string, one per comma-separated piece, in order. */
  function ParseRules(text: string): (clauses: seq<Clause>)
    ensures |clauses| == Count(text, ',') + 1
    ensures forall i :: 0 <= i < |clauses| ==> clauses[i] == ParseClause(Split(text, ',')[i])
  {
    var pieces := Split(text, ',');
    seq(|pieces|, i requires 0 <= i < |pieces| => ParseClause(pieces[i]))
  }

  /** The text of one clause, as a rule string writes it. */
  function UnparseClause(c: Clause): string {
    (if c.inverse then "!" else "") + Join([c.name] + c.params, ':')
  }

  /** The rule string that lists the clauses, comma-separated. */
  function Unparse(clauses: seq<Clause>): string
    requires |clauses| >= 1
  {
    Join(seq(|clauses|, i requires 0 <= i < |clauses| => UnparseClause(clauses[i])), ',')
  }

  /**
   * A clause that a rule string can spell: neither separator in its name or
   * parameters, and a `!` at the front of its name only as the inverse mark.
   */
  predicate Spellable(c: Clause) {
    && ',' !in c.name && ':' !in c.name
    && (forall k :: 0 <= k < |c.params| ==> ',' !in c.params[k] && ':' !in c.params[k])
    && (!c.inverse ==> !(|c.name| > 0 && c.name[0] == '!'))
  }

  lemma UnparseParseClause(text: string)
    ensures UnparseClause(ParseClause(text)) == text
  {
    var tokens := Split(text, ':');
    JoinSplit(text, ':');
    var c := ParseClause(text);
    assert tokens == [tokens[0]] + tokens[1..];
    if c.inverse {
      assert tokens[0] == "!" + c.name;
      var rest := [c.name] + c.params;
      assert Join([tokens[0]] + c.params, ':') == "!" + Join(rest, ':') by {
        assert tokens[0] == ['!'] + c.name;
        JoinConsHead('!', c.name, c.params, ':');
      }
    }
  }

  /** Every character of a rule string is kept: the clauses spell it back. */
  lemma ParseRoundTrip(text: string)
    ensures Unparse(ParseRules(text)) == text
  {
    var pieces := Split(text, ',');
    var clauses := ParseRules(text);
    var spelled := seq(|clauses|, i requires 0 <= i < |clauses| => UnparseClause(clauses[i]));
    forall i | 0 <= i < |pieces|
      ensures spelled[i] == pieces[i]
    {
      UnparseParseClause(pieces[i]);
    }
    assert spelled == pieces;
    JoinSplit(text, ',');
  }

  lemma ParseUnparseClause(c: Clause)
    requires Spellable(c)
    ensures ParseClause(UnparseClause(c)) == c
  {
    var tokens := [c.name] + c.params;
    forall k | 0 <= k < |tokens| ensures ':' !in tokens[k] {
      if k > 0 { assert tokens[k] == c.params[k - 1]; }
    }
    SplitJoin(tokens, ':');
    var joined := Join(tokens, ':');
    assert tokens[1..] == c.params;
    if c.inverse {
      assert UnparseClause(c) == ['!'] + joined;
      assert tokens == [c.name] + c.params;
      JoinConsHead('!', c.name, c.params, ':');
      SplitJoin([['!'] + c.name] + c.params, ':') by {
        forall k | 0 <= k < |c.params| + 1
          ensures ':' !in ([['!'] + c.name] + c.params)[k]
        {
          if k > 0 { assert ([['!'] + c.name] + c.params)[k] == c.params[k - 1]; }
        }
      }
      assert (['!'] + c.name)[1..] == c.name;
    } else {
      assert UnparseClause(c) == joined;
    }
  }

  /** Spellable clauses survive a trip through their rule string. */
  lemma ParseUnparse(clauses: seq<Clause>)
    requires |clauses| >= 1
    requires forall i :: 0 <= i < |clauses| ==> Spellable(clauses[i])
    ensures ParseRules(Unparse(clauses)) == clauses
  {
    var spelled := seq(|clauses|, i requires 0 <= i < |clauses| => UnparseClause(clauses[i]));
    forall i | 0 <= i < |clauses|
      ensures ',' !in spelled[i]
    {
      var c := clauses[i];
      var tokens := [c.name] + c.params;
      forall k | 0 <= k < |tokens| ensures ',' !in tokens[k] {
        if k > 0 { assert tokens[k] == c.params[k - 1]; }
      }
      JoinAvoids(tokens, ':', ',');
    }
    SplitJoin(spelled, ',');
    forall i | 0 <= i < |clauses|
      ensures ParseRules(Unparse(clauses))[i] == clauses[i]
    {
      ParseUnparseClause(clauses[i]);
    }
  }
}
