/** The rename rule table as init leaves it. Each rule is a name followed by
    the keywords that must all be tagged for the rule to apply. A rule given
    as a bare name takes the '-'-separated parts of that name as its
    keywords; every keyword is lowercased, and the union of all keywords is
    the keyword set that documents are searched for. */
module Rules {
  import opened Unicode
  import opened Strs

  /** A bare name gains its '-'-separated parts; longer rules are kept. */
  function Expand(v: seq<string>): (r: seq<string>)
    ensures |v| == 1 ==> |r| >= 2 && r[0] == v[0] && r[1..] == Split(v[0], '-')
    ensures |v| == 1 ==> Join(r[1..], '-') == v[0] && |r| == CountChar(v[0], '-') + 2
    ensures |v| != 1 ==> r == v
  {
    if |v| == 1 then SplitJoin(v[0], '-'); v + Split(v[0], '-') else v
  }

  /** The rule with every entry after the name lowercased. */
  function LowerTail(w: seq<string>): (r: seq<string>)
    ensures |r| == |w|
    ensures |w| > 0 ==> r[0] == w[0]
    ensures forall p :: 1 <= p < |w| ==> r[p] == Lower(w[p])
  {
    if w == [] then [] else [w[0]] + seq(|w| - 1, p requires 0 <= p < |w| - 1 => Lower(w[p + 1]))
  }

  /** What init makes of one rule. */
  function NormalizeRule(v: seq<string>): (r: seq<string>)
    ensures v == [] ==> r == []
    ensures v != [] ==> |r| >= 2 || |r| == |v|
  {
    LowerTail(Expand(v))
  }

  /** The keywords of one rule: its entries after the name. */
  function TokenSet(r: seq<string>): set<string> {
    if r == [] then {} else set t | t in r[1..]
  }

  /** The keywords of a rule table. */
  function RuleKeywords(rules: seq<seq<string>>): set<string> {
    if rules == [] then {}
    else RuleKeywords(rules[..|rules| - 1]) + TokenSet(rules[|rules| - 1])
  }

  /** The rule table after init. */
  function NormalizeAll(raw: seq<seq<string>>): (r: seq<seq<string>>)
    ensures |r| == |raw| && forall k :: 0 <= k < |raw| ==> r[k] == NormalizeRule(raw[k])
  {
    seq(|raw|, k requires 0 <= k < |raw| => NormalizeRule(raw[k]))
  }

  /** The rule loop of init: returns the rewritten table and the keywords. */
  method InitRules(raw: seq<seq<string>>) returns (rules: seq<seq<string>>, keywords: set<string>)
    ensures rules == NormalizeAll(raw)
    ensures keywords == RuleKeywords(rules)
  {
    ghost var table := NormalizeAll(raw);
    rules := raw;
    keywords := {};
    var k := 0;
    while k < |rules|
      invariant k <= |rules| == |raw|
      invariant rules[..k] == table[..k]
      invariant rules[k..] == raw[k..]
      invariant keywords == RuleKeywords(table[..k])
    {
      var v := rules[k];
      assert v == raw[k];
      if |v| == 1 {
        var vp := Split(v[0], '-');
        v := v + vp;
      }
      assert v == Expand(raw[k]);
      var lowered, tokens := LowerTokens(v);
      assert lowered == table[k] by {
        assert table[k] == NormalizeRule(raw[k]);
      }
      RuleKeywordsStep(table, k);
      TableStep(rules, table, raw, k, lowered);
      rules := rules[k := lowered];
      keywords := keywords + tokens;
      k := k + 1;
    }
    assert rules == rules[..k];
  }

  /** Storing the k-th normalised rule extends the normalised prefix. */
  lemma TableStep(rules: seq<seq<string>>, table: seq<seq<string>>, raw: seq<seq<string>>,
                  k: nat, lowered: seq<string>)
    requires k < |rules| == |table| == |raw|
    requires rules[..k] == table[..k] && rules[k..] == raw[k..] && lowered == table[k]
    ensures rules[k := lowered][..k + 1] == table[..k + 1]
    ensures rules[k := lowered][k + 1..] == raw[k + 1..]
  {
    var after := rules[k := lowered];
    assert after[..k + 1] == rules[..k] + [lowered];
    assert after[k + 1..] == rules[k + 1..];
    assert rules[k + 1..] == rules[k..][1..];
    assert raw[k + 1..] == raw[k..][1..];
  }

  lemma RuleKeywordsStep(table: seq<seq<string>>, k: nat)
    requires k < |table|
    ensures RuleKeywords(table[..k + 1]) == RuleKeywords(table[..k]) + TokenSet(table[k])
  {
    assert table[..k + 1][..k] == table[..k];
  }

  /** The inner loop of init over one rule: every entry but the name is
      lowercased in place and recorded as a keyword. */
  method LowerTokens(v: seq<string>) returns (w: seq<string>, tokens: set<string>)
    ensures w == LowerTail(v)
    ensures tokens == TokenSet(w)
  {
    w := v;
    tokens := {};
    var i := 0;
    while i < |w|
      invariant i <= |w| == |v|
      invariant forall p :: 0 <= p < |w| ==> w[p] == if 1 <= p < i then Lower(v[p]) else v[p]
      invariant i >= 1 ==> tokens == set t | t in w[1..i]
      invariant i == 0 ==> tokens == {}
    {
      if i != 0 {
        var lcname := Lower(w[i]);
        ghost var before := w;
        w := w[i := lcname];
        assert w[1..i + 1] == before[1..i] + [lcname];
        ElemsSnoc(before[1..i], lcname);
        tokens := tokens + {lcname};
      } else {
        assert w[1..1] == [];
      }
      i := i + 1;
    }
    assert w == LowerTail(v);
    if w != [] {
      assert w[1..i] == w[1..];
    }
  }

  lemma ElemsSnoc(a: seq<string>, x: string)
    ensures (set t | t in a + [x]) == (set t | t in a) + {x}
  {
  }

  // ---------------------------------------------------------------------
  // Properties of the normalised table

  /** Every rule with a name ends with at least one keyword, keeps its name,
      and has only lowercase keywords. */
  lemma NormalizedRuleShape(v: seq<string>)
    requires v != []
    ensures var r := NormalizeRule(v);
      && |r| >= 2
      && r[0] == v[0]
      && forall p :: 1 <= p < |r| ==> IsLowered(r[p])
  {
    var w := Expand(v);
    forall p | 1 <= p < |w| ensures IsLowered(NormalizeRule(v)[p]) {
      LowerIsLowered(w[p]);
    }
  }

  /** Lowercasing commutes with joining on a separator that is not a letter. */
  lemma {:induction false} LowerJoin(parts: seq<string>, sep: char)
    requires !IsLetter(sep)
    ensures Join(seq(|parts|, p requires 0 <= p < |parts| => Lower(parts[p])), sep) == Lower(Join(parts, sep))
    decreases |parts|
  {
    var lowered := seq(|parts|, p requires 0 <= p < |parts| => Lower(parts[p]));
    if |parts| > 1 {
      var rest := parts[1..];
      LowerJoin(rest, sep);
      assert lowered[1..] == seq(|rest|, p requires 0 <= p < |rest| => Lower(rest[p]));
      LowerConcat(parts[0] + [sep], Join(rest, sep));
      LowerConcat(parts[0], [sep]);
    }
  }

  lemma LowerConcat(a: string, b: string)
    ensures Lower(a + b) == Lower(a) + Lower(b)
  {
  }

  /** A bare-name rule's keywords joined with '-' spell the lowercased name. */
  lemma BareNameKeywords(name: string)
    ensures var r := NormalizeRule([name]);
      |r| >= 2 && r[0] == name && Join(r[1..], '-') == Lower(name)
  {
    var parts := Split(name, '-');
    SplitJoin(name, '-');
    var r := NormalizeRule([name]);
    assert r[1..] == seq(|parts|, p requires 0 <= p < |parts| => Lower(parts[p]));
    LowerJoin(parts, '-');
  }

  /** Normalising twice changes nothing: a normalised rule has two or more
      entries, so it is not expanded again, and its keywords are already
      lowercase. */
  lemma NormalizeIdempotent(v: seq<string>)
    ensures NormalizeRule(NormalizeRule(v)) == NormalizeRule(v)
  {
    if v != [] {
      var r := NormalizeRule(v);
      NormalizedRuleShape(v);
      forall p | 1 <= p < |r| ensures Lower(r[p]) == r[p] {
        LoweredFixed(r[p]);
      }
    }
  }

  /** The keyword set is exactly the entries after the names. */
  lemma {:induction false} KeywordsOfTable(rules: seq<seq<string>>)
    ensures forall t :: t in RuleKeywords(rules) <==> exists k :: 0 <= k < |rules| && t in TokenSet(rules[k])
    decreases |rules|
  {
    if rules != [] {
      var n := |rules| - 1;
      KeywordsOfTable(rules[..n]);
      forall t | t in RuleKeywords(rules) ensures exists k :: 0 <= k < |rules| && t in TokenSet(rules[k]) {
        if t !in TokenSet(rules[n]) {
          assert t in RuleKeywords(rules[..n]);
          var k :| 0 <= k < n && t in TokenSet(rules[..n][k]);
          assert t in TokenSet(rules[k]);
        }
      }
      forall t | exists k :: 0 <= k < |rules| && t in TokenSet(rules[k]) ensures t in RuleKeywords(rules) {
        var k :| 0 <= k < |rules| && t in TokenSet(rules[k]);
        if k < n {
          assert rules[..n][k] == rules[k];
        }
      }
    }
  }

  /** Every keyword of a normalised table is lowercase. */
  lemma KeywordsLowered(raw: seq<seq<string>>)
    ensures forall t :: t in RuleKeywords(NormalizeAll(raw)) ==> IsLowered(t)
  {
    var rules := NormalizeAll(raw);
    KeywordsOfTable(rules);
    forall t | t in RuleKeywords(rules) ensures IsLowered(t) {
      var k :| 0 <= k < |rules| && t in TokenSet(rules[k]);
      NormalizedRuleShape(raw[k]);
      var p :| 1 <= p < |rules[k]| && rules[k][p] == t;
    }
  }
}
