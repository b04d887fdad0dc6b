/**
 * SlackTemplate (src/services/slack-template.ts): a Block Kit template is
 * rendered by walking its JSON tree and, in every string, replacing each
 * `{{key}}` placeholder (the pattern /\{\{(\w+)\}\}/g) by the context's
 * value for `key`, or by nothing when the context has no such key.  The
 * replacement is one left-to-right pass: inserted text is never rescanned.
 */
module SlackTemplate {
  import opened Wrappers

  /** A JSON value; an object is its entries, in the order Object.entries lists them. */
  datatype Json =
    | JArray(items: seq<Json>)
    | JObject(fields: seq<(string, Json)>)
    | JString(text: string)
    | JNumber(n: int)
    | JBool(b: bool)
    | JNull

  /** A context value: string, number or boolean. */
  datatype TemplateValue = TStr(s: string) | TNum(n: int) | TBool(b: bool)

  type Context = map<string, TemplateValue>

  // ---------------------------------------------------------------------
  // String(value)
  // ---------------------------------------------------------------------

  function DigitChar(d: nat): char
    requires d < 10
  {
    "0123456789"[d]
  }

  function DigitValue(c: char): nat {
    if '0' <= c <= '9' then (c - '0') as nat else 0
  }

  /** The decimal digits of n, without leading zeros. */
  function NatToString(n: nat): (s: string)
    ensures |s| > 0
    ensures forall i :: 0 <= i < |s| ==> '0' <= s[i] <= '9'
    ensures |s| > 1 ==> s[0] != '0'
  {
    if n < 10 then [DigitChar(n)] else NatToString(n / 10) + [DigitChar(n % 10)]
  }

  /** The number a string of decimal digits denotes. */
  function DecimalValue(s: string): nat
    decreases |s|
  {
    if |s| == 0 then 0 else 10 * DecimalValue(s[..|s| - 1]) + DigitValue(s[|s| - 1])
  }

  lemma {:induction false} NatToStringRoundTrip(n: nat)
    ensures DecimalValue(NatToString(n)) == n
  {
    var s := NatToString(n);
    DigitRoundTrip(n % 10);
    if n >= 10 {
      NatToStringRoundTrip(n / 10);
      assert s[..|s| - 1] == NatToString(n / 10);
      assert s[|s| - 1] == DigitChar(n % 10);
    }
  }

  lemma DigitRoundTrip(d: nat)
    requires d < 10
    ensures DigitValue(DigitChar(d)) == d
  {
  }

  /** The decimal text of an integer, with a leading '-' when it is negative. */
  function IntString(n: int): string {
    if n < 0 then "-" + NatToString(-n) else NatToString(n)
  }

  /** The integer a decimal text with an optional leading '-' denotes. */
  function IntValue(s: string): int {
    if |s| > 0 && s[0] == '-' then -(DecimalValue(s[1..]) as int) else DecimalValue(s)
  }

  lemma {:induction false} IntStringRoundTrip(n: int)
    ensures IntValue(IntString(n)) == n
  {
    if n < 0 {
      var m: nat := -n;
      var d := NatToString(m);
      assert IntString(n) == "-" + d;
      NatToStringRoundTrip(m);
      SignedValue(d);
      assert IntValue("-" + d) == n;
    } else {
      var d := NatToString(n);
      assert IntString(n) == d;
      assert d[0] != '-';
      NatToStringRoundTrip(n);
      assert IntValue(d) == n;
    }
  }

  lemma SignedValue(d: string)
    ensures IntValue("-" + d) == -(DecimalValue(d) as int)
  {
    assert ("-" + d)[1..] == d;
  }

  /** JavaScript's String(value) for the values a context holds (integral numbers only). */
  function ValueString(v: TemplateValue): (r: string)
    ensures v.TNum? ==> IntValue(r) == v.n
    ensures !v.TStr? ==> |r| > 0
  {
    match v
    case TStr(s) => s
    case TNum(n) => IntStringRoundTrip(n); IntString(n)
    case TBool(b) => if b then "true" else "false"
  }

  // ---------------------------------------------------------------------
  // The placeholder pattern
  // ---------------------------------------------------------------------

  /** `\w` without the unicode flag: an ASCII letter, digit or underscore. */
  predicate IsWordChar(c: char) {
    ('A' <= c <= 'Z') || ('a' <= c <= 'z') || ('0' <= c <= '9') || c == '_'
  }

  /** A placeholder key: what `(\w+)` captures. */
  predicate IsKey(key: string) {
    |key| > 0 && forall i :: 0 <= i < |key| ==> IsWordChar(key[i])
  }

  /** The length of the longest prefix of s made of word characters. */
  function WordRun(s: string): (n: nat)
    ensures n <= |s|
    ensures forall i :: 0 <= i < n ==> IsWordChar(s[i])
    ensures n < |s| ==> !IsWordChar(s[n])
  {
    if |s| == 0 || !IsWordChar(s[0]) then 0 else 1 + WordRun(s[1..])
  }

  /**
   * The length of the key of a placeholder match starting at the first
   * character of s, if there is one.  `\w+` is greedy and may give back
   * characters, but a shorter run is followed by a word character, never
   * by `}`, so the only possible match uses the longest run.
   */
  function MatchAt(s: string): (r: Option<nat>)
    ensures r.Some? ==> 4 + r.value <= |s| && s[..2] == "{{" && IsKey(s[2..2 + r.value]) && s[2 + r.value..4 + r.value] == "}}"
  {
    if |s| >= 2 && s[0] == '{' && s[1] == '{' then
      var n := WordRun(s[2..]);
      if n > 0 && 4 + n <= |s| && s[2 + n] == '}' && s[3 + n] == '}' then Some(n) else None
    else None
  }

  lemma {:induction false} WordRunOfKey(key: string, tail: string)
    requires forall i :: 0 <= i < |key| ==> IsWordChar(key[i])
    requires |tail| > 0 && !IsWordChar(tail[0])
    ensures WordRun(key + tail) == |key|
  {
    if |key| > 0 {
      assert (key + tail)[1..] == key[1..] + tail;
      WordRunOfKey(key[1..], tail);
    }
  }

  /** Every `{{key}}` with a `\w+` key is a match, and it matches exactly that key. */
  lemma MatchAtPlaceholder(key: string, rest: string)
    requires IsKey(key)
    ensures MatchAt("{{" + key + "}}" + rest) == Some(|key|)
  {
    var s := "{{" + key + "}}" + rest;
    assert s[2..] == key + ("}}" + rest);
    WordRunOfKey(key, "}}" + rest);
  }

  // ---------------------------------------------------------------------
  // One string
  // ---------------------------------------------------------------------

  /** `String(context[key])` when the key is in the context, else the empty string. */
  function Replacement(ctx: Context, key: string): (r: string)
    ensures key !in ctx ==> r == ""
    ensures key in ctx && !ctx[key].TStr? ==> |r| > 0
  {
    if key in ctx then ValueString(ctx[key]) else ""
  }

  /** `s.replace(/\{\{(\w+)\}\}/g, ...)`: a left-to-right scan, replaced text never looked at again. */
  function Substitute(s: string, ctx: Context): (r: string)
    ensures ctx == map[] ==> |r| <= |s|
    decreases |s|
  {
    if |s| == 0 then ""
    else match MatchAt(s)
      case Some(n) => Replacement(ctx, s[2..2 + n]) + Substitute(s[4 + n..], ctx)
      case None => [s[0]] + Substitute(s[1..], ctx)
  }

  /** s holds no match of the pattern at any position. */
  predicate NoPlaceholder(s: string) {
    forall p :: 0 <= p < |s| ==> MatchAt(s[p..]).None?
  }

  /** A string with no match comes back unchanged. */
  lemma {:induction false} NoPlaceholderUnchanged(s: string, ctx: Context)
    requires NoPlaceholder(s)
    ensures Substitute(s, ctx) == s
    decreases |s|
  {
    if |s| > 0 {
      assert MatchAt(s[0..]).None?;
      assert s[0..] == s;
      forall p | 0 <= p < |s[1..]| ensures MatchAt(s[1..][p..]).None? {
        assert s[1..][p..] == s[p + 1..];
      }
      NoPlaceholderUnchanged(s[1..], ctx);
    }
  }

  /** Text without '{' passes through, and the scan resumes right after it. */
  lemma {:induction false} SubstituteLiteralPrefix(pre: string, s: string, ctx: Context)
    requires '{' !in pre
    ensures Substitute(pre + s, ctx) == pre + Substitute(s, ctx)
    decreases |pre|
  {
    if |pre| > 0 {
      var u := pre + s;
      assert u[0] == pre[0] && pre[0] in pre;
      assert MatchAt(u).None?;
      assert u[1..] == pre[1..] + s;
      assert '{' !in pre[1..] by {
        forall c | c in pre[1..] ensures c != '{' {
          assert c in pre;
        }
      }
      SubstituteLiteralPrefix(pre[1..], s, ctx);
      var r := Substitute(s, ctx);
      assert Substitute(u, ctx) == [pre[0]] + (pre[1..] + r);
      ConcatAssoc([pre[0]], pre[1..], r);
      assert [pre[0]] + pre[1..] == pre;
    } else {
      assert pre + s == s;
    }
  }

  /** A placeholder at the front becomes its replacement, and the scan resumes right after it. */
  lemma SubstitutePlaceholder(key: string, rest: string, ctx: Context)
    requires IsKey(key)
    ensures Substitute("{{" + key + "}}" + rest, ctx) == Replacement(ctx, key) + Substitute(rest, ctx)
  {
    var s := "{{" + key + "}}" + rest;
    MatchAtPlaceholder(key, rest);
    assert s[2..2 + |key|] == key;
    assert s[4 + |key|..] == rest;
  }

  /**
   * A reference reading of a template string: literal text and holes.
   * Join writes the segments out as template text; Fill writes them out
   * with each hole filled from the context.
   */
  datatype Segment = Lit(text: string) | Hole(key: string)

  predicate WellFormedSegments(segs: seq<Segment>) {
    forall i :: 0 <= i < |segs| ==>
      (segs[i].Lit? ==> '{' !in segs[i].text) && (segs[i].Hole? ==> IsKey(segs[i].key))
  }

  function Join(segs: seq<Segment>): string {
    if |segs| == 0 then ""
    else (match segs[0] case Lit(t) => t case Hole(k) => "{{" + k + "}}") + Join(segs[1..])
  }

  function Fill(segs: seq<Segment>, ctx: Context): string {
    if |segs| == 0 then ""
    else (match segs[0] case Lit(t) => t case Hole(k) => Replacement(ctx, k)) + Fill(segs[1..], ctx)
  }

  /**
   * Substitution fills every hole of a template string from the context,
   * keeps the literal text, and does not rescan what it inserted.
   */
  lemma {:induction false} SubstituteFills(segs: seq<Segment>, ctx: Context)
    requires WellFormedSegments(segs)
    ensures Substitute(Join(segs), ctx) == Fill(segs, ctx)
  {
    if |segs| > 0 {
      SubstituteFills(segs[1..], ctx);
      match segs[0]
      case Lit(t) =>
        SubstituteLiteralPrefix(t, Join(segs[1..]), ctx);
      case Hole(k) =>
        assert Join(segs) == "{{" + k + "}}" + Join(segs[1..]);
        SubstitutePlaceholder(k, Join(segs[1..]), ctx);
    }
  }

  /** The literal text of the segments: what an empty context leaves. */
  function Literals(segs: seq<Segment>): string {
    if |segs| == 0 then "" else (match segs[0] case Lit(t) => t case Hole(_) => "") + Literals(segs[1..])
  }

  /** With an empty context every placeholder is deleted and the literal text kept. */
  lemma {:induction false} EmptyContextDeletes(segs: seq<Segment>)
    requires WellFormedSegments(segs)
    ensures Substitute(Join(segs), map[]) == Literals(segs)
  {
    SubstituteFills(segs, map[]);
    FillEmpty(segs);
  }

  lemma {:induction false} FillEmpty(segs: seq<Segment>)
    ensures Fill(segs, map[]) == Literals(segs)
  {
    if |segs| > 0 {
      FillEmpty(segs[1..]);
    }
  }

  /** The pass is single: a string value is inserted as it is, even when it looks like a placeholder itself. */
  lemma InsertedTextNotRescanned(key: string, value: string, ctx: Context)
    requires IsKey(key) && key in ctx && ctx[key] == TStr(value)
    ensures Substitute("{{" + key + "}}", ctx) == value
  {
    SubstitutePlaceholder(key, "", ctx);
    assert "{{" + key + "}}" + "" == "{{" + key + "}}";
    assert value + "" == value;
  }

  /**
   * Deleting an inner placeholder can join its neighbours into text that
   * looks like a placeholder; the pass does not go back to expand it.
   */
  lemma JoinedTextNotRescanned(outer: string, inner: string)
    requires IsKey(outer) && IsKey(inner)
    ensures Substitute("{{" + outer + "{{" + inner + "}}" + "}}", map[]) == "{{" + outer + "}}"
  {
    var ctx: Context := map[];
    var tail := "{{" + inner + "}}" + "}}";
    assert "{{" + outer + "{{" + inner + "}}" + "}}" == "{{" + (outer + tail) by {
      ConcatAssoc("{{" + outer, "{{", inner);
      ConcatAssoc("{{" + outer, "{{" + inner, "}}");
      ConcatAssoc("{{" + outer, "{{" + inner + "}}", "}}");
      ConcatAssoc("{{", outer, tail);
    }
    OpenBracesNotMatched(outer, tail, ctx);
    assert '{' !in outer by {
      forall c | c in outer ensures c != '{' {
        var i :| 0 <= i < |outer| && outer[i] == c;
        assert IsWordChar(outer[i]);
      }
    }
    SubstituteLiteralPrefix(outer, tail, ctx);
    DeletedPlaceholderTail(inner);
    ConcatAssoc("{{", outer, "}}");
  }

  /** The inner placeholder is deleted and the closing braces after it are kept. */
  lemma DeletedPlaceholderTail(inner: string)
    requires IsKey(inner)
    ensures Substitute("{{" + inner + "}}" + "}}", map[]) == "}}"
  {
    var ctx: Context := map[];
    SubstitutePlaceholder(inner, "}}", ctx);
    SubstituteLiteralPrefix("}}", "", ctx);
    assert "}}" + "" == "}}" && "" + "}}" == "}}";
  }

  /** `{{` followed by a key and then `{` is no match: both braces pass through as text. */
  lemma OpenBracesNotMatched(key: string, tail: string, ctx: Context)
    requires IsKey(key) && |tail| > 0 && tail[0] == '{'
    ensures Substitute("{{" + (key + tail), ctx) == "{{" + Substitute(key + tail, ctx)
  {
    var u := "{{" + (key + tail);
    var r := Substitute(key + tail, ctx);
    assert u[2..] == key + tail;
    assert MatchAt(u).None? by {
      WordRunOfKey(key, tail);
      assert u[2 + |key|] == '{';
    }
    assert MatchAt(u[1..]).None? by {
      assert u[1..][1] == key[0] && IsWordChar(key[0]);
    }
    assert u[1..][1..] == u[2..];
    assert Substitute(u[1..], ctx) == [u[1]] + r;
    assert Substitute(u, ctx) == [u[0]] + ([u[1]] + r);
    ConcatAssoc([u[0]], [u[1]], r);
    assert [u[0]] + [u[1]] == "{{";
  }

  // ---------------------------------------------------------------------
  // Blocks
  // ---------------------------------------------------------------------

  /** a and b have the same tree: same array lengths, same object keys in order, equal non-string scalars. */
  predicate SameShape(a: Json, b: Json)
    decreases a
  {
    match a
    case JArray(xs) =>
      b.JArray? && |xs| == |b.items| && forall i :: 0 <= i < |xs| ==> SameShape(xs[i], b.items[i])
    case JObject(fs) =>
      b.JObject? && |fs| == |b.fields| &&
      forall i :: 0 <= i < |fs| ==> fs[i].0 == b.fields[i].0 && SameShape(fs[i].1, b.fields[i].1)
    case JString(_) => b.JString?
    case _ => a == b
  }

  /**
   * b is a, rendered with ctx: the same tree, where every string of a, at
   * any depth, has become its substitution.
   */
  predicate Rendered(a: Json, b: Json, ctx: Context)
    decreases a
  {
    match a
    case JArray(xs) =>
      b.JArray? && |xs| == |b.items| && forall i :: 0 <= i < |xs| ==> Rendered(xs[i], b.items[i], ctx)
    case JObject(fs) =>
      b.JObject? && |fs| == |b.fields| &&
      forall i :: 0 <= i < |fs| ==> fs[i].0 == b.fields[i].0 && Rendered(fs[i].1, b.fields[i].1, ctx)
    case JString(s) => b == JString(Substitute(s, ctx))
    case _ => a == b
  }

  /** replaceInBlock: the same tree, with every string substituted. */
  function ReplaceInBlock(block: Json, ctx: Context): (r: Json)
    ensures Rendered(block, r, ctx)
    ensures SameShape(block, r)
    ensures block.JString? ==> r.text == Substitute(block.text, ctx)
    decreases block
  {
    match block
    case JArray(xs) => JArray(seq(|xs|, i requires 0 <= i < |xs| => ReplaceInBlock(xs[i], ctx)))
    case JObject(fs) => JObject(seq(|fs|, i requires 0 <= i < |fs| => (fs[i].0, ReplaceInBlock(fs[i].1, ctx))))
    case JString(s) => JString(Substitute(s, ctx))
    case _ => block
  }

  /** No string anywhere in the tree holds a placeholder. */
  predicate NoPlaceholderIn(block: Json)
    decreases block
  {
    match block
    case JArray(xs) => forall i :: 0 <= i < |xs| ==> NoPlaceholderIn(xs[i])
    case JObject(fs) => forall i :: 0 <= i < |fs| ==> NoPlaceholderIn(fs[i].1)
    case JString(s) => NoPlaceholder(s)
    case _ => true
  }

  /** A tree without placeholders renders to itself. */
  lemma {:induction false} NoPlaceholderBlockUnchanged(block: Json, ctx: Context)
    requires NoPlaceholderIn(block)
    ensures ReplaceInBlock(block, ctx) == block
    decreases block
  {
    match block
    case JArray(xs) =>
      forall i | 0 <= i < |xs| ensures ReplaceInBlock(xs[i], ctx) == xs[i] {
        NoPlaceholderBlockUnchanged(xs[i], ctx);
      }
      assert ReplaceInBlock(block, ctx).items == xs;
    case JObject(fs) =>
      forall i | 0 <= i < |fs| ensures ReplaceInBlock(fs[i].1, ctx) == fs[i].1 {
        NoPlaceholderBlockUnchanged(fs[i].1, ctx);
      }
      assert ReplaceInBlock(block, ctx).fields == fs;
    case JString(s) =>
      NoPlaceholderUnchanged(s, ctx);
    case _ =>
  }

  /** A template: Block Kit blocks fixed at construction. */
  datatype Template = Template(blocks: seq<Json>)
  {
    /** render: one output block per template block, in order, each of the same shape. */
    function Render(ctx: Context): (r: seq<Json>)
      ensures |r| == |blocks|
      ensures forall i :: 0 <= i < |blocks| ==> r[i] == ReplaceInBlock(blocks[i], ctx) && SameShape(blocks[i], r[i])
      ensures forall i :: 0 <= i < |blocks| ==> Rendered(blocks[i], r[i], ctx)
    {
      seq(|blocks|, i requires 0 <= i < |blocks| => ReplaceInBlock(blocks[i], ctx))
    }
  }
}
