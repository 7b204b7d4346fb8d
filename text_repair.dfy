/** Text repair of film titles: `fix_encoding` in interface.py.
 *
 *  A title goes through an ordered table of literal substring replacements
 *  (Python's `str.replace`, applied once per table entry in dict order), then
 *  through Unicode NFC normalisation, then through two exact-phrase fix-ups.
 *  NFC is a foreign library routine: it is a parameter `nfc` of every member,
 *  and whatever a lemma needs to know about it is stated in that lemma's
 *  `requires` for the particular strings involved.
 */
module TextRepair {

  /** A cell of the `film_title` column: a Python `str`, or any other value
   *  (NaN, a number, ...), which `tag` stands for. */
  datatype Value = Str(s: string) | NonStr(tag: int)

  /** Python's `k in s`: `k` occurs somewhere in `s` as a contiguous piece.
   *  A piece at the start occurs, and no piece longer than the text does. */
  function Occurs(k: string, s: string): (b: bool)
    ensures k <= s ==> b
    ensures b ==> |k| <= |s|
  {
    k <= s || (s != [] && Occurs(k, s[1..]))
  }

  /** `k in s` holds exactly when `k` is a prefix of some suffix of `s`. */
  lemma {:induction false} OccursAtSomePosition(k: string, s: string)
    ensures Occurs(k, s) <==> exists i :: 0 <= i <= |s| && k <= s[i..]
  {
    assert s[0..] == s;
    if !(k <= s) && s != [] {
      OccursAtSomePosition(k, s[1..]);
      assert forall i :: 1 <= i <= |s| ==> s[1..][i - 1..] == s[i..];
      if exists i :: 0 <= i <= |s| && k <= s[i..] {
        var i :| 0 <= i <= |s| && k <= s[i..];
        assert i != 0;
        assert k <= s[1..][i - 1..];
      }
    }
  }

  /** Every character of an occurring piece is a character of the text. */
  lemma {:induction false} OccursChars(k: string, s: string, x: char)
    requires Occurs(k, s) && x in k
    ensures x in s
  {
    if k <= s {
      var i :| 0 <= i < |k| && k[i] == x;
      assert s[i] == x;
    } else {
      OccursChars(k, s[1..], x);
    }
  }

  /** A one-character piece occurs exactly when the character is in the text. */
  lemma {:induction false} OccursSingle(c: char, s: string)
    ensures Occurs([c], s) <==> c in s
  {
    if s != [] {
      OccursSingle(c, s[1..]);
      assert s == [s[0]] + s[1..];
    }
  }

  /** Python's `s.replace(k, v)`: every non-overlapping occurrence of `k`,
   *  scanning left to right, is replaced by `v`. For an empty `k` Python
   *  inserts `v` before every character and at the end. */
  function ReplaceAll(s: string, k: string, v: string): (r: string)
    ensures forall x :: x in r ==> x in s || x in v
    ensures |k| > 0 && !Occurs(k, s) ==> r == s
    decreases |s|
  {
    if s == [] then (if k == [] then v else [])
    else if k == [] then v + [s[0]] + ReplaceAll(s[1..], k, v)
    else if k <= s then v + ReplaceAll(s[|k|..], k, v)
    else [s[0]] + ReplaceAll(s[1..], k, v)
  }

  /** Replacing a single character by text that lacks it removes it entirely. */
  lemma {:induction false} ReplaceCharRemoves(s: string, c: char, v: string)
    requires c !in v
    ensures c !in ReplaceAll(s, [c], v)
  {
    if s != [] {
      ReplaceCharRemoves(s[1..], c, v);
      if [c] <= s {
        assert s[1..] == s[|[c]|..];
      }
    }
  }

  /** A prefix that lacks the first character of `k` passes through untouched. */
  lemma ReplaceAfterPlainPrefix(a: string, b: string, k: string, v: string)
    requires |k| > 0 && k[0] !in a
    ensures ReplaceAll(a + b, k, v) == a + ReplaceAll(b, k, v)
  {
    forall p | 0 <= p < |a|
      ensures !(k <= (a + b)[p..])
    {
      assert (a + b)[p..][0] == a[p];
    }
    ReplaceAfterUnmatchedPrefix(a, b, k, v);
  }

  /** Where `k` does not start, `str.replace` copies one character and moves on. */
  lemma ReplaceUnmatchedStep(s: string, k: string, v: string)
    requires s != [] && |k| > 0 && !(k <= s)
    ensures ReplaceAll(s, k, v) == [s[0]] + ReplaceAll(s[1..], k, v)
  {
  }

  /** A prefix at none of whose positions `k` starts passes through untouched. */
  lemma {:induction false} ReplaceAfterUnmatchedPrefix(a: string, b: string, k: string, v: string)
    requires |k| > 0
    requires forall p :: 0 <= p < |a| ==> !(k <= (a + b)[p..])
    ensures ReplaceAll(a + b, k, v) == a + ReplaceAll(b, k, v)
  {
    var s := a + b;
    if a == [] {
      assert s == b;
    } else {
      var t := a[1..] + b;
      assert s[1..] == t;
      assert !(k <= s) by {
        assert s[0..] == s;
      }
      forall p | 0 <= p < |a[1..]|
        ensures !(k <= t[p..])
      {
        assert t[p..] == s[p + 1..];
      }
      ReplaceUnmatchedStep(s, k, v);
      ReplaceAfterUnmatchedPrefix(a[1..], b, k, v);
      var rest := ReplaceAll(b, k, v);
      assert [s[0]] + (a[1..] + rest) == ([a[0]] + a[1..]) + rest;
      assert [a[0]] + a[1..] == a;
    }
  }

  /** The replacement table as Python iterates it (interface.py:24-28).
   *  The literal writes the bare key "Ã" (U+00C3) twice, first with value
   *  "à", then with "À"; a Python dict keeps one entry for it, in the first
   *  key's position (the tenth), with the last value "À". */
  const Table: seq<(string, string)> := [
    ("Ã©", "é"), ("Ã¨", "è"), ("Ã¢", "â"), ("Ã®", "î"), ("Ã´", "ô"),
    ("Ã»", "û"), ("Ã«", "ë"), ("Ã¯", "ï"), ("Ã§", "ç"), ("Ã", "À")
  ]

  /** The key/value pairs of the dict literal as written, in source order. */
  const LiteralPairs: seq<(string, string)> := [
    ("Ã©", "é"), ("Ã¨", "è"), ("Ã¢", "â"), ("Ã®", "î"), ("Ã´", "ô"),
    ("Ã»", "û"), ("Ã«", "ë"), ("Ã¯", "ï"), ("Ã§", "ç"), ("Ã", "à"),
    ("Ã", "À")
  ]

  /** The keys of an ordered dict, in iteration order. */
  function Keys(d: seq<(string, string)>): (ks: seq<string>)
    ensures |ks| == |d| && forall i :: 0 <= i < |d| ==> ks[i] == d[i].0
  {
    if d == [] then [] else [d[0].0] + Keys(d[1..])
  }

  /** No key appears twice in an ordered dict. */
  ghost predicate DistinctKeys(d: seq<(string, string)>)
  {
    forall i, j :: 0 <= i < j < |d| ==> d[i].0 != d[j].0
  }

  /** The position of key `k` in an ordered dict, or `|d|` when it is absent. */
  function KeyIndex(d: seq<(string, string)>, k: string): (i: nat)
    ensures i <= |d|
    ensures i < |d| ==> d[i].0 == k
    ensures i == |d| ==> k !in Keys(d)
  {
    if d == [] then 0
    else if d[0].0 == k then 0
    else
      var i := KeyIndex(d[1..], k);
      assert Keys(d) == [d[0].0] + Keys(d[1..]);
      i + 1
  }

  /** Python's `d[k] = v` on an insertion-ordered dict: an existing key keeps
   *  its position and takes the new value; a new key goes at the end. */
  function DictStore(d: seq<(string, string)>, k: string, v: string): (r: seq<(string, string)>)
    requires DistinctKeys(d)
    ensures DistinctKeys(r)
    ensures Keys(r) == if k in Keys(d) then Keys(d) else Keys(d) + [k]
    ensures k !in Keys(d) ==> r == d + [(k, v)]
    ensures forall i :: 0 <= i < |d| && d[i].0 != k ==> r[i] == d[i]
    ensures forall i :: 0 <= i < |d| && d[i].0 == k ==> r[i] == (k, v)
  {
    var i := KeyIndex(d, k);
    if i < |d| then
      var r := d[i := (k, v)];
      assert Keys(r) == Keys(d);
      r
    else
      var r := d + [(k, v)];
      assert Keys(r) == Keys(d) + [k];
      r
  }

  /** The dict a Python dict literal builds from its pairs, left to right:
   *  its keys are exactly the keys of the pairs, each once. */
  function DictLiteral(pairs: seq<(string, string)>): (d: seq<(string, string)>)
    ensures DistinctKeys(d)
    ensures forall k :: k in Keys(d) <==> k in Keys(pairs)
  {
    if pairs == [] then []
    else
      var init := pairs[..|pairs| - 1];
      var last := pairs[|pairs| - 1];
      assert Keys(pairs) == Keys(init) + [last.0];
      DictStore(DictLiteral(init), last.0, last.1)
  }

  /** The value the last pair with key `k` gives, if any pair has that key. */
  function LastValue(pairs: seq<(string, string)>, k: string, default: string): string
  {
    if pairs == [] then default
    else if pairs[|pairs| - 1].0 == k then pairs[|pairs| - 1].1
    else LastValue(pairs[..|pairs| - 1], k, default)
  }

  /** Each key of a dict literal carries the value of the last pair naming it. */
  lemma {:induction false} DictLiteralLastWins(pairs: seq<(string, string)>, default: string, i: nat)
    requires i < |DictLiteral(pairs)|
    ensures DictLiteral(pairs)[i].1 == LastValue(pairs, DictLiteral(pairs)[i].0, default)
  {
    var init := pairs[..|pairs| - 1];
    var last := pairs[|pairs| - 1];
    var d := DictLiteral(init);
    if i < |d| && d[i].0 != last.0 {
      DictLiteralLastWins(init, default, i);
    }
  }

  /** The keys of the table are pairwise different: their last characters are. */
  lemma TableKeysDistinct()
    ensures DistinctKeys(Table)
  {
    var lastChars := seq(10, i requires 0 <= i < 10 => Table[i].0[|Table[i].0| - 1]);
    assert lastChars == ['©', '¨', '¢', '®', '´', '»', '«', '¯', '§', 'Ã'];
    forall i, j | 0 <= i < j < |Table|
      ensures Table[i].0 != Table[j].0
    {
      assert lastChars[i] != lastChars[j];
    }
  }

  /** A literal whose keys are all different builds a dict with its pairs in order. */
  lemma {:induction false} DictLiteralOfDistinct(pairs: seq<(string, string)>)
    requires DistinctKeys(pairs)
    ensures DictLiteral(pairs) == pairs
  {
    if pairs != [] {
      var init := pairs[..|pairs| - 1];
      var last := pairs[|pairs| - 1];
      assert DistinctKeys(init) by {
        forall i, j | 0 <= i < j < |init| ensures init[i].0 != init[j].0 {
          assert init[i] == pairs[i] && init[j] == pairs[j];
        }
      }
      DictLiteralOfDistinct(init);
      assert last.0 !in Keys(init) by {
        forall i | 0 <= i < |init| ensures Keys(init)[i] != last.0 {
          assert init[i] == pairs[i];
        }
      }
      assert init + [last] == pairs;
    }
  }

  /** Storing again under the last key replaces just that entry's value. */
  lemma StoreOverLast(d: seq<(string, string)>, k: string, prior: string, v: string)
    requires DistinctKeys(d + [(k, prior)])
    ensures DictStore(d + [(k, prior)], k, v) == d + [(k, v)]
  {
    var e := d + [(k, prior)];
    var r := DictStore(e, k, v);
    assert Keys(e)[|d|] == k;
    assert forall i :: 0 <= i < |d| ==> e[i].0 != k;
  }

  /** The literal is the table's first nine entries, then "Ã" twice. */
  lemma LiteralPairsShape()
    ensures LiteralPairs == Table[..9] + [("Ã", "à"), ("Ã", "À")]
    ensures Table == Table[..9] + [("Ã", "À")]
  {
  }

  /** Iterating the dict literal of interface.py:24-28 gives `Table`: the
   *  first nine pairs have different keys, the tenth adds the key "Ã", the
   *  eleventh overwrites its value. */
  lemma ReplacementTableOrder()
    ensures DictLiteral(LiteralPairs) == Table
  {
    LiteralPairsShape();
    TableKeysDistinct();
    var head := Table[..9];
    var d10 := head + [("Ã", "à")];
    assert DistinctKeys(d10) by {
      assert forall i :: 0 <= i < 10 ==> d10[i].0 == Table[i].0;
    }
    DictLiteralOfDistinct(d10);
    assert LiteralPairs[..10] == d10;
    assert LiteralPairs[..|LiteralPairs| - 1] == d10;
    StoreOverLast(head, "Ã", "à", "À");
  }

  /** Applies `rules` in order, each as one `str.replace` over the whole text.
   *  Every character of the result comes from the text or from a value. */
  function ApplyRules(rules: seq<(string, string)>, s: string): (r: string)
    ensures forall x :: x in r ==> x in s || exists i :: 0 <= i < |rules| && x in rules[i].1
  {
    if rules == [] then s
    else
      var init := rules[..|rules| - 1];
      var last := rules[|rules| - 1];
      var prev := ApplyRules(init, s);
      assert forall i :: 0 <= i < |init| ==> init[i] == rules[i];
      ReplaceAll(prev, last.0, last.1)
  }

  /** Running two rule lists one after the other is running their concatenation. */
  lemma {:induction false} ApplyRulesAppend(a: seq<(string, string)>, b: seq<(string, string)>, s: string)
    ensures ApplyRules(a + b, s) == ApplyRules(b, ApplyRules(a, s))
    decreases |b|
  {
    if b == [] {
      assert a + b == a;
    } else {
      ApplyRulesAppend(a, b[..|b| - 1], s);
      assert (a + b)[..|a + b| - 1] == a + b[..|b| - 1];
    }
  }

  /** Rules whose keys all start with a character the text lacks change nothing. */
  lemma {:induction false} ApplyRulesAbsent(rules: seq<(string, string)>, c: char, s: string)
    requires forall i :: 0 <= i < |rules| ==> |rules[i].0| > 0 && rules[i].0[0] == c
    requires c !in s
    ensures ApplyRules(rules, s) == s
  {
    if rules != [] {
      ApplyRulesAbsent(rules[..|rules| - 1], c, s);
      var k := rules[|rules| - 1].0;
      if Occurs(k, s) {
        OccursChars(k, s, c);
      }
    }
  }

  /** Every key of the table starts with "Ã" (U+00C3). */
  lemma TableKeysStartWithA()
    ensures forall i :: 0 <= i < |Table| ==> |Table[i].0| > 0 && Table[i].0[0] == 'Ã'
  {
  }

  /** After the replacement loop (interface.py:30-31) no "Ã" is left, because
   *  the last entry replaces every bare "Ã" by "À". */
  lemma TableRemovesA(s: string)
    ensures 'Ã' !in ApplyRules(Table, s)
    ensures !Occurs("Ã", ApplyRules(Table, s))
  {
    assert Table[|Table| - 1] == ("Ã", "À");
    ReplaceCharRemoves(ApplyRules(Table[..|Table| - 1], s), 'Ã', "À");
    OccursSingle('Ã', ApplyRules(Table, s));
  }

  /** A text without "Ã" goes through the replacement loop unchanged. */
  lemma TableKeepsClean(s: string)
    requires 'Ã' !in s
    ensures ApplyRules(Table, s) == s
  {
    TableKeysStartWithA();
    ApplyRulesAbsent(Table, 'Ã', s);
  }

  /** `if wrong in text: text = text.replace(wrong, right)` (interface.py:37-40).
   *  The guard changes nothing: without an occurrence `str.replace` is the
   *  identity anyway. */
  function FixPhrase(t: string, wrong: string, right: string): (r: string)
    requires |wrong| > 0
    ensures r == ReplaceAll(t, wrong, right)
  {
    if Occurs(wrong, t) then ReplaceAll(t, wrong, right) else t
  }

  const Evades := "EvadÃ©s"
  const EvadesFixed := "Évadés"
  const Communaute := "communautÃ©"
  const CommunauteFixed := "communauté"

  /** A phrase whose first "Ã" sits at position `m` cannot start inside a
   *  text without "Ã" that it follows. */
  lemma PhraseStartsAfterCleanPrefix(a: string, w: string, b: string, m: nat)
    requires m < |w| && w[m] == 'Ã' && 'Ã' !in w[..m] && 'Ã' !in a
    ensures forall p :: 0 <= p < |a| ==> !(w <= (a + w + b)[p..])
  {
    var s := a + w + b;
    forall p | 0 <= p < |a|
      ensures !(w <= s[p..])
    {
      if p + m < |s| {
        assert s[p..][m] == s[p + m];
        if p + m < |a| {
          assert s[p + m] == a[p + m];
        } else {
          assert s[p + m] == w[..m][p + m - |a|];
        }
      }
    }
  }

  /** A phrase fix-up on one occurrence of its phrase between texts without
   *  "Ã" replaces that occurrence and changes nothing else. */
  lemma FixPhraseInContext(a: string, w: string, b: string, right: string, m: nat)
    requires m < |w| && w[m] == 'Ã' && 'Ã' !in w[..m]
    requires 'Ã' !in a && 'Ã' !in b
    ensures FixPhrase(a + w + b, w, right) == a + right + b
  {
    PhraseStartsAfterCleanPrefix(a, w, b, m);
    assert a + w + b == a + (w + b);
    ReplaceAfterUnmatchedPrefix(a, w + b, w, right);
    assert w <= w + b && (w + b)[|w|..] == b;
    assert !Occurs(w, b) by {
      if Occurs(w, b) {
        OccursChars(w, b, 'Ã');
      }
    }
    assert a + (right + b) == a + right + b;
  }

  /** The "EvadÃ©s" fix-up turns one occurrence between clean texts into
   *  "Évadés" and changes nothing else. */
  lemma FixEvadesInContext(a: string, b: string)
    requires 'Ã' !in a && 'Ã' !in b
    ensures FixPhrase(a + Evades + b, Evades, EvadesFixed) == a + EvadesFixed + b
  {
    assert Evades[4] == 'Ã' && Evades[..4] == "Evad";
    FixPhraseInContext(a, Evades, b, EvadesFixed, 4);
  }

  /** The "communautÃ©" fix-up turns one occurrence between clean texts into
   *  "communauté" and changes nothing else. */
  lemma FixCommunauteInContext(a: string, b: string)
    requires 'Ã' !in a && 'Ã' !in b
    ensures FixPhrase(a + Communaute + b, Communaute, CommunauteFixed) == a + CommunauteFixed + b
  {
    assert Communaute[9] == 'Ã' && Communaute[..9] == "communaut";
    FixPhraseInContext(a, Communaute, b, CommunauteFixed, 9);
  }

  /** `fix_encoding` on a string (interface.py:23-40). Every character of the
   *  result comes from the normalised table output or from a fix-up target. */
  function RepairText(nfc: string -> string, s: string): (r: string)
    ensures forall x :: x in r ==>
      x in nfc(ApplyRules(Table, s)) || x in EvadesFixed || x in CommunauteFixed
  {
    var t := nfc(ApplyRules(Table, s));
    FixPhrase(FixPhrase(t, Evades, EvadesFixed), Communaute, CommunauteFixed)
  }

  /** `fix_encoding` on any cell (interface.py:20-42): only strings are repaired. */
  function Repair(nfc: string -> string, v: Value): (r: Value)
    ensures v.NonStr? ==> r == v
    ensures v.Str? ==> r == Str(RepairText(nfc, v.s))
  {
    match v
    case NonStr(_) => v
    case Str(s) => Str(RepairText(nfc, s))
  }

  /** `fix_encoding` as the source runs it: `text` is reassigned once per
   *  table entry, then normalised, then put through the two fix-ups. */
  method FixEncoding(nfc: string -> string, v: Value) returns (r: Value)
    ensures r == Repair(nfc, v)
  {
    if v.NonStr? {
      return v;
    }
    var text := v.s;
    for i := 0 to |Table|
      invariant text == ApplyRules(Table[..i], v.s)
    {
      assert Table[..i + 1][..i] == Table[..i];
      text := ReplaceAll(text, Table[i].0, Table[i].1);
    }
    assert Table[..|Table|] == Table;
    text := nfc(text);
    if Occurs(Evades, text) {
      text := ReplaceAll(text, Evades, EvadesFixed);
    }
    if Occurs(Communaute, text) {
      text := ReplaceAll(text, Communaute, CommunauteFixed);
    }
    return Str(text);
  }

  /** The phrase fix-ups can only fire when NFC itself produces an "Ã":
   *  otherwise the result is exactly the normalised table output. */
  lemma PhrasesNeedNfcA(nfc: string -> string, s: string)
    requires 'Ã' !in nfc(ApplyRules(Table, s))
    ensures RepairText(nfc, s) == nfc(ApplyRules(Table, s))
  {
    var t := nfc(ApplyRules(Table, s));
    assert Evades[4] == 'Ã' && Communaute[9] == 'Ã';
    if Occurs(Evades, t) {
      OccursChars(Evades, t, 'Ã');
    }
    if Occurs(Communaute, t) {
      OccursChars(Communaute, t, 'Ã');
    }
  }

  /** A text with no "Ã" that NFC leaves alone is returned unchanged. */
  lemma RepairKeepsClean(nfc: string -> string, s: string)
    requires 'Ã' !in s && nfc(s) == s
    ensures RepairText(nfc, s) == s
  {
    TableKeepsClean(s);
    PhrasesNeedNfcA(nfc, s);
  }

  /** "café", already composed, is returned unchanged. */
  lemma RepairCafe(nfc: string -> string)
    requires nfc("café") == "café"
    ensures Repair(nfc, Str("café")) == Str("café")
  {
    RepairKeepsClean(nfc, "café");
  }

  /** The first table entry repairs one occurrence and the rest of the table
   *  has nothing left to do. */
  lemma {:induction false} FirstRuleSuffices(s: string)
    requires 'Ã' !in ReplaceAll(s, Table[0].0, Table[0].1)
    ensures ApplyRules(Table, s) == ReplaceAll(s, Table[0].0, Table[0].1)
  {
    assert Table == Table[..1] + Table[1..];
    ApplyRulesAppend(Table[..1], Table[1..], s);
    assert Table[..1][..0] == [];
    var t := ReplaceAll(s, Table[0].0, Table[0].1);
    assert ApplyRules(Table[..1], s) == t;
    TableKeysStartWithA();
    ApplyRulesAbsent(Table[1..], 'Ã', t);
  }

  /** The "Ã©" entry turns a leading "Ã©" into "é" and leaves clean text after it. */
  lemma ReplaceLeadingAccent(b: string)
    requires 'Ã' !in b
    ensures ReplaceAll("Ã©" + b, "Ã©", "é") == "é" + b
  {
    var k := "Ã©";
    assert k <= k + b && (k + b)[|k|..] == b;
    if Occurs(k, b) {
      OccursChars(k, b, 'Ã');
    }
  }

  /** The replacement loop turns a single mis-encoded "é" between clean text
   *  into "é" and changes nothing else. */
  lemma TableOnOneAccent(a: string, b: string)
    requires 'Ã' !in a && 'Ã' !in b
    ensures ApplyRules(Table, a + "Ã©" + b) == a + "é" + b
  {
    var k := Table[0].0;
    assert k == "Ã©" && Table[0].1 == "é";
    assert a + "Ã©" + b == a + (k + b);
    ReplaceAfterPlainPrefix(a, k + b, k, "é");
    ReplaceLeadingAccent(b);
    var r := a + "é" + b;
    assert a + ("é" + b) == r;
    assert 'Ã' !in r by {
      assert forall x :: x in r ==> x in a || x == 'é' || x in b;
    }
    FirstRuleSuffices(a + "Ã©" + b);
  }

  /** A single mis-encoded "é" between clean text is repaired by the table's
   *  first entry, and nothing else changes. */
  lemma RepairOneAccent(nfc: string -> string, a: string, b: string)
    requires 'Ã' !in a && 'Ã' !in b
    requires nfc(a + "é" + b) == a + "é" + b
    ensures RepairText(nfc, a + "Ã©" + b) == a + "é" + b
  {
    TableOnOneAccent(a, b);
    PhrasesNeedNfcA(nfc, a + "Ã©" + b);
  }

  /** "EvadÃ©s" becomes "Evadés": the table's "Ã©" entry fires before the
   *  phrase fix-up could turn it into "Évadés". */
  lemma RepairEvades(nfc: string -> string)
    requires nfc("Evadés") == "Evadés"
    ensures Repair(nfc, Str(Evades)) == Str("Evadés")
  {
    assert Evades == "Evad" + "Ã©" + "s";
    assert "Evadés" == "Evad" + "é" + "s";
    RepairOneAccent(nfc, "Evad", "s");
  }

  /** "communautÃ©" becomes "communauté", by the table's "Ã©" entry. */
  lemma RepairCommunaute(nfc: string -> string)
    requires nfc("communauté") == "communauté"
    ensures Repair(nfc, Str(Communaute)) == Str("communauté")
  {
    assert Communaute == "communaut" + "Ã©" + "";
    assert "communauté" == "communaut" + "é" + "";
    RepairOneAccent(nfc, "communaut", "");
  }

  /** Repair is idempotent on `s` when NFC neither creates an "Ã" from the
   *  table's output nor changes its own output. */
  lemma RepairIdempotentWhenStable(nfc: string -> string, s: string)
    requires 'Ã' !in nfc(ApplyRules(Table, s))
    requires nfc(nfc(ApplyRules(Table, s))) == nfc(ApplyRules(Table, s))
    ensures RepairText(nfc, RepairText(nfc, s)) == RepairText(nfc, s)
  {
    PhrasesNeedNfcA(nfc, s);
    RepairKeepsClean(nfc, nfc(ApplyRules(Table, s)));
  }

  /** Repair is not idempotent in general: NFC composes "A" + U+0303 into
   *  "Ã", which survives the first pass and is turned into "À" by the second. */
  lemma RepairNotIdempotent(nfc: string -> string)
    requires nfc("A\U{0303}") == "Ã" && nfc("À") == "À"
    ensures RepairText(nfc, "A\U{0303}") == "Ã"
    ensures RepairText(nfc, RepairText(nfc, "A\U{0303}")) == "À"
  {
    TableKeepsClean("A\U{0303}");
    var t := "Ã";
    assert !Occurs(Evades, t) && !Occurs(Communaute, t);
    TableRemovesA(t);
    assert Table[|Table| - 1] == ("Ã", "À");
    assert Table[..|Table| - 1][..0] == [];
    ApplyRulesAbsentPrefix(t);
    assert ApplyRules(Table, t) == ReplaceAll(t, "Ã", "À");
    TableKeepsClean("À");
    PhrasesNeedNfcA(nfc, "Ã");
  }

  /** None of the first nine table entries matches a lone "Ã". */
  lemma ApplyRulesAbsentPrefix(t: string)
    requires t == "Ã"
    ensures ApplyRules(Table[..|Table| - 1], t) == t
  {
    var p := Table[..|Table| - 1];
    if p != [] {
      forall i | 0 <= i < |p|
        ensures !Occurs(p[i].0, t)
      {
        assert |p[i].0| == 2;
      }
      NoLongRuleMatches(p, t);
    }
  }

  /** Rules whose keys never occur in the text change nothing. */
  lemma {:induction false} NoLongRuleMatches(rules: seq<(string, string)>, t: string)
    requires forall i :: 0 <= i < |rules| ==> |rules[i].0| > 0 && !Occurs(rules[i].0, t)
    ensures ApplyRules(rules, t) == t
  {
    if rules != [] {
      NoLongRuleMatches(rules[..|rules| - 1], t);
    }
  }
}
