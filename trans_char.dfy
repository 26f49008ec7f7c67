/** $util.transChar: build a function that escapes the special characters
    <, ≤, > and ≥ as the HTML entities &lt;, &le;, &gt; and &ge;. */
module TransChar {
  import opened Js

  /** TransChar.Keys: the names of the four escape rules. */
  datatype Key = Lt | Le | Gt | Ge

  /** The character a rule replaces. */
  function KeyChar(k: Key): char {
    match k
    case Lt => '<'
    case Le => '\U{2264}'
    case Gt => '>'
    case Ge => '\U{2265}'
  }

  /** The entity a rule writes in its place. */
  function Entity(k: Key): string {
    match k
    case Lt => "&lt;"
    case Le => "&le;"
    case Gt => "&gt;"
    case Ge => "&ge;"
  }

  /** The rule, if any, that replaces character c. */
  function CharKey(c: char): (r: Option<Key>)
    ensures r.Some? ==> KeyChar(r.value) == c
    ensures r.None? ==> forall k: Key :: KeyChar(k) != c
  {
    if c == '<' then Some(Lt)
    else if c == '\U{2264}' then Some(Le)
    else if c == '>' then Some(Gt)
    else if c == '\U{2265}' then Some(Ge)
    else None
  }

  /** A global replace of the character c: every occurrence of c replaced. */
  function ReplaceAll(s: string, c: char, replacement: string): (r: string)
    ensures c !in replacement ==> c !in r
    ensures c !in s ==> r == s
  {
    if s == [] then [] else ReplaceChar(s[0], c, replacement) + ReplaceAll(s[1..], c, replacement)
  }

  /** One character of the replacement. */
  function ReplaceChar(d: char, c: char, replacement: string): string
  {
    if d == c then replacement else [d]
  }

  /** The replacer a rule name selects from the table [['lt', lt], ['le', le], ...]. */
  function Replacer(k: Key): string -> string {
    s => ReplaceAll(s, KeyChar(k), Entity(k))
  }

  /** The replacer of each selected rule, in the order the rules are named. */
  function Replacers(targets: seq<Key>): (fs: seq<string -> string>)
    ensures |fs| == |targets|
  {
    if targets == [] then [] else [Replacer(targets[0])] + Replacers(targets[1..])
  }

  /** lodash flowRight over fs: the functions composed right to left, so the last
      one runs first. */
  function FlowRight(fs: seq<string -> string>, s: string): string
  {
    if fs == [] then s else fs[0](FlowRight(fs[1..], s))
  }

  /** transChar(targets, extras): the selected rules followed by the extra
      transforms, as one right-to-left pipeline. A pipeline of no functions at
      all is not given a meaning. */
  function TransChar(targets: seq<Key>, extras: seq<string -> string>): string -> string
    requires |targets| + |extras| > 0
  {
    s => FlowRight(Replacers(targets) + extras, s)
  }

  /** The reference escaping: one character at a time, a character of a
      selected rule becomes its entity and any other character stays. */
  function Escape(s: string, keys: set<Key>): string
  {
    if s == [] then [] else EscapeChar(s[0], keys) + Escape(s[1..], keys)
  }

  /** One character of the reference escaping. */
  function EscapeChar(c: char, keys: set<Key>): (r: string)
    ensures CharKey(c).None? || CharKey(c).value !in keys ==> r == [c]
  {
    var k := CharKey(c);
    if k.Some? && k.value in keys then Entity(k.value) else [c]
  }

  /** Composing right to left distributes over concatenating the pipeline. */
  lemma {:induction false} FlowRightAppend(fs: seq<string -> string>, gs: seq<string -> string>, s: string)
    ensures FlowRight(fs + gs, s) == FlowRight(fs, FlowRight(gs, s))
  {
    if fs != [] {
      assert (fs + gs)[1..] == fs[1..] + gs;
      FlowRightAppend(fs[1..], gs, s);
    } else {
      assert fs + gs == gs;
    }
  }

  lemma {:induction false} ReplaceAllAppend(a: string, b: string, c: char, replacement: string)
    ensures ReplaceAll(a + b, c, replacement) == ReplaceAll(a, c, replacement) + ReplaceAll(b, c, replacement)
  {
    if a != [] {
      assert (a + b)[0] == a[0] && (a + b)[1..] == a[1..] + b;
      ReplaceAllAppend(a[1..], b, c, replacement);
      var h := ReplaceChar(a[0], c, replacement);
      assert h + (ReplaceAll(a[1..], c, replacement) + ReplaceAll(b, c, replacement))
        == (h + ReplaceAll(a[1..], c, replacement)) + ReplaceAll(b, c, replacement);
    } else {
      assert a + b == b;
    }
  }

  /** No entity contains a special character, so a later rule leaves it alone. */
  lemma ReplaceAllEntity(k: Key, j: Key)
    ensures ReplaceAll(Entity(j), KeyChar(k), Entity(k)) == Entity(j)
  {
  }

  /** Escaping with no rules selected is the identity. */
  lemma {:induction false} EscapeNothing(s: string)
    ensures Escape(s, {}) == s
  {
    if s != [] {
      EscapeNothing(s[1..]);
    }
  }

  /** Running one more rule after an escape is the escape with that rule added. */
  lemma {:induction false} ReplaceAfterEscape(s: string, keys: set<Key>, k: Key)
    ensures ReplaceAll(Escape(s, keys), KeyChar(k), Entity(k)) == Escape(s, keys + {k})
  {
    if s != [] {
      ReplaceAllAppend(EscapeChar(s[0], keys), Escape(s[1..], keys), KeyChar(k), Entity(k));
      ReplaceAfterEscape(s[1..], keys, k);
      ReplaceAfterEscapeChar(s[0], keys, k);
    }
  }

  lemma ReplaceAfterEscapeChar(c: char, keys: set<Key>, k: Key)
    ensures ReplaceAll(EscapeChar(c, keys), KeyChar(k), Entity(k)) == EscapeChar(c, keys + {k})
  {
    var e := CharKey(c);
    if e.Some? && e.value in keys {
      ReplaceAllEntity(k, e.value);
    } else {
      assert ReplaceAll([c], KeyChar(k), Entity(k)) == if c == KeyChar(k) then Entity(k) else [c];
    }
  }

  /** The replacers of the selected rules, composed, escape those rules' characters. */
  lemma {:induction false} ReplacersEscape(targets: seq<Key>, s: string)
    ensures FlowRight(Replacers(targets), s) == Escape(s, set k | k in targets)
  {
    if targets == [] {
      EscapeNothing(s);
      assert (set k | k in targets) == {};
    } else {
      ReplacersEscape(targets[1..], s);
      ReplaceAfterEscape(s, (set k | k in targets[1..]), targets[0]);
      assert (set k | k in targets) == (set k | k in targets[1..]) + {targets[0]};
    }
  }

  /** The pipeline transChar builds first runs the extras (right to left), then
      escapes the characters of the selected rules; the order and repetition of
      the rule names make no difference. */
  lemma TransCharEscapes(targets: seq<Key>, extras: seq<string -> string>, s: string)
    requires |targets| + |extras| > 0
    ensures TransChar(targets, extras)(s) == Escape(FlowRight(extras, s), set k | k in targets)
  {
    FlowRightAppend(Replacers(targets), extras, s);
    ReplacersEscape(targets, FlowRight(extras, s));
  }

  /** No character of a selected rule is left in the output of an escape. */
  lemma {:induction false} EscapeRemovesSelected(s: string, keys: set<Key>, k: Key)
    requires k in keys
    ensures KeyChar(k) !in Escape(s, keys)
  {
    if s != [] {
      EscapeRemovesSelected(s[1..], keys, k);
      var c := CharKey(s[0]);
      if c.Some? && c.value in keys {
        assert KeyChar(k) !in Entity(c.value);
      }
    }
  }

  /** Count of character c in s. */
  function Occurrences(s: string, c: char): (n: nat)
    ensures n == 0 <==> c !in s
  {
    if s == [] then 0 else (if s[0] == c then 1 else 0) + Occurrences(s[1..], c)
  }

  lemma {:induction false} OccurrencesAppend(a: string, b: string, c: char)
    ensures Occurrences(a + b, c) == Occurrences(a, c) + Occurrences(b, c)
  {
    if a != [] {
      assert (a + b)[1..] == a[1..] + b;
      OccurrencesAppend(a[1..], b, c);
    } else {
      assert a + b == b;
    }
  }

  /** The character of a rule that was not selected passes through: it occurs
      in the output exactly as often as in the input. */
  lemma {:induction false} EscapeKeepsUnselected(s: string, keys: set<Key>, k: Key)
    requires k !in keys
    ensures Occurrences(Escape(s, keys), KeyChar(k)) == Occurrences(s, KeyChar(k))
  {
    if s != [] {
      OccurrencesAppend(EscapeChar(s[0], keys), Escape(s[1..], keys), KeyChar(k));
      EscapeKeepsUnselected(s[1..], keys, k);
      EscapeCharKeepsUnselected(s[0], keys, k);
    }
  }

  lemma EscapeCharKeepsUnselected(c: char, keys: set<Key>, k: Key)
    requires k !in keys
    ensures Occurrences(EscapeChar(c, keys), KeyChar(k)) == if c == KeyChar(k) then 1 else 0
  {
    var e := CharKey(c);
    if e.Some? && e.value in keys {
      assert e.value != k;
      assert Occurrences(Entity(e.value), KeyChar(k)) == 0;
    } else {
      assert [c][1..] == [];
    }
  }

  /** Escaping > and ≤ in "a≤b>c", one character at a time. */
  lemma EscapeExample()
    ensures Escape("a\U{2264}b>c", {Gt, Le}) == "a&le;b&gt;c"
  {
    var s := "a\U{2264}b>c";
    var keys := {Gt, Le};
    assert s[4..] == "c" && s[3..] == ">c" && s[2..] == "b>c" && s[1..] == "\U{2264}b>c";
    assert Escape(s[4..], keys) == "c" by {
      assert s[4..][1..] == [];
    }
    assert Escape(s[3..], keys) == "&gt;c" by {
      assert s[3..][1..] == s[4..];
    }
    assert Escape(s[2..], keys) == "b&gt;c" by {
      assert s[2..][1..] == s[3..];
    }
    assert Escape(s[1..], keys) == "&le;b&gt;c" by {
      assert s[1..][1..] == s[2..];
    }
  }

  /** escape(['gt', 'le'])('a≤b>c') gives 'a&le;b&gt;c'. */
  lemma TransCharExample()
    ensures TransChar([Gt, Le], [])("a\U{2264}b>c") == "a&le;b&gt;c"
  {
    TransCharEscapes([Gt, Le], [], "a\U{2264}b>c");
    assert (set k | k in [Gt, Le]) == {Gt, Le};
    EscapeExample();
  }
}
