/** Seeding a table from a column: cluster the values, derive a readable key from
    each cluster's representative, and map every value to its cluster's key. */
module SeedKeys {
  import opened Clusters

  predicate IsAlnum(ch: char) { 'a' <= ch <= 'z' || '0' <= ch <= '9' }

  /** Each run of other characters becomes one underscore. */
  function Collapse(s: string, inRun: bool): string
  {
    if s == [] then []
    else if IsAlnum(s[0]) then [s[0]] + Collapse(s[1..], false)
    else if inRun then Collapse(s[1..], true)
    else "_" + Collapse(s[1..], true)
  }

  /** Drop an underscore at either end. */
  function Trim(s: string): string
  {
    var t := if s != [] && s[0] == '_' then s[1..] else s;
    if t != [] && t[|t| - 1] == '_' then t[..|t| - 1] else t
  }

  /** slug, for a given toLowerCase. */
  function Slug(lower: string -> string, s: string): string
  {
    Trim(Collapse(lower(s), false))
  }

  // ------------------------------------------------------------- slug is neat

  /** Letters, digits and single underscores, perhaps one at an end. */
  ghost predicate Spaced(s: string)
  {
    && (forall i | 0 <= i < |s| :: IsAlnum(s[i]) || s[i] == '_')
    && (forall i | 0 <= i < |s| - 1 :: s[i] != '_' || s[i + 1] != '_')
  }

  /** What slug produces: letters and digits, with single underscores between. */
  ghost predicate Neat(s: string)
  {
    Spaced(s) && (s != [] ==> s[0] != '_' && s[|s| - 1] != '_')
  }

  lemma {:induction false} CollapseShape(s: string, inRun: bool)
    ensures Spaced(Collapse(s, inRun))
    ensures inRun && Collapse(s, inRun) != [] ==> Collapse(s, inRun)[0] != '_'
  {
    if s != [] {
      CollapseShape(s[1..], !IsAlnum(s[0]));
      var rest := Collapse(s[1..], !IsAlnum(s[0]));
      if IsAlnum(s[0]) {
        SpacedCons(s[0], rest);
      } else if !inRun {
        SpacedCons('_', rest);
      }
    }
  }

  lemma SpacedCons(ch: char, s: string)
    requires Spaced(s) && (IsAlnum(ch) || (ch == '_' && (s != [] ==> s[0] != '_')))
    ensures Spaced([ch] + s)
  {
    var t := [ch] + s;
    forall i | 0 <= i < |t|
      ensures IsAlnum(t[i]) || t[i] == '_'
      ensures i < |t| - 1 ==> t[i] != '_' || t[i + 1] != '_'
    {
      if i > 0 {
        assert t[i] == s[i - 1];
      }
    }
  }

  lemma TrimNeat(s: string)
    requires Spaced(s)
    ensures Neat(Trim(s))
  {
    var t := if s != [] && s[0] == '_' then s[1..] else s;
    assert Spaced(t) && (t != [] ==> t[0] != '_');
    assert Trim(t) == if t != [] && t[|t| - 1] == '_' then t[..|t| - 1] else t;
  }

  lemma SlugIsNeat(lower: string -> string, s: string)
    ensures Neat(Slug(lower, s))
  {
    CollapseShape(lower(s), false);
    TrimNeat(Collapse(lower(s), false));
  }

  lemma {:induction false} CollapseNeat(s: string)
    requires Spaced(s)
    ensures Collapse(s, false) == s
    ensures s != [] && s[0] != '_' ==> Collapse(s, true) == s
  {
    if s != [] {
      CollapseNeat(s[1..]);
      assert s == [s[0]] + s[1..];
    }
  }

  /** slug changes nothing that it produced; of toLowerCase this needs only that it
      leaves lower-case letters, digits and underscores alone. */
  lemma SlugIdempotent(lower: string -> string, s: string)
    requires forall t | Neat(t) :: lower(t) == t
    ensures Slug(lower, Slug(lower, s)) == Slug(lower, s)
  {
    SlugIsNeat(lower, s);
    CollapseNeat(Slug(lower, s));
  }

  // ------------------------------------------------------------- slug word by word

  ghost predicate IsWord(s: string)
  {
    s != [] && forall i | 0 <= i < |s| :: IsAlnum(s[i])
  }

  /** A run of characters that are no lower-case letters or digits. */
  ghost predicate IsGap(s: string)
  {
    forall i | 0 <= i < |s| :: !IsAlnum(s[i])
  }

  /** Text made of words with gaps between and perhaps around them. */
  function Text(gaps: seq<string>, words: seq<string>): string
    requires |gaps| == |words| + 1
  {
    if words == [] then gaps[0] else gaps[0] + words[0] + Text(gaps[1..], words[1..])
  }

  /** The words, joined by single underscores. */
  function Joined(words: seq<string>): string
  {
    if words == [] then ""
    else if |words| == 1 then words[0]
    else words[0] + "_" + Joined(words[1..])
  }

  lemma {:induction false} CollapseWord(w: string, rest: string, inRun: bool)
    requires IsWord(w)
    ensures Collapse(w + rest, inRun) == w + Collapse(rest, false)
  {
    assert (w + rest)[1..] == w[1..] + rest;
    if |w| > 1 {
      CollapseWord(w[1..], rest, false);
    } else {
      assert w[1..] + rest == rest;
    }
    assert w == [w[0]] + w[1..];
  }

  lemma {:induction false} CollapseGap(g: string, rest: string, inRun: bool)
    requires IsGap(g)
    ensures Collapse(g + rest, inRun)
            == if g == [] then Collapse(rest, inRun)
               else if inRun then Collapse(rest, true) else "_" + Collapse(rest, true)
  {
    if g == [] {
      assert g + rest == rest;
    } else {
      assert (g + rest)[1..] == g[1..] + rest;
      CollapseGap(g[1..], rest, true);
    }
  }

  /** Gaps inside are not empty. */
  ghost predicate AreGaps(gaps: seq<string>)
  {
    && (forall i | 0 <= i < |gaps| :: IsGap(gaps[i]))
    && forall i | 0 < i < |gaps| - 1 :: gaps[i] != []
  }

  ghost predicate AreWords(words: seq<string>)
  {
    forall i | 0 <= i < |words| :: IsWord(words[i])
  }

  lemma TailText(gaps: seq<string>, words: seq<string>)
    requires |gaps| == |words| + 1 && AreGaps(gaps) && AreWords(words) && words != []
    ensures AreGaps(gaps[1..]) && AreWords(words[1..]) && IsGap(gaps[0]) && IsWord(words[0])
  {
    hide IsGap, IsWord;
  }

  /** What a gap becomes. */
  function Mark(gap: string): string
  {
    if gap == [] then "" else "_"
  }

  /** What the last gap becomes, unless it is the only one. */
  function LastMark(gaps: seq<string>, words: seq<string>): string
    requires |gaps| == |words| + 1
  {
    if words == [] then "" else Mark(gaps[|words|])
  }

  lemma {:induction false} CollapseText(gaps: seq<string>, words: seq<string>)
    requires |gaps| == |words| + 1 && AreGaps(gaps) && AreWords(words)
    ensures Collapse(Text(gaps, words), false) == Mark(gaps[0]) + Joined(words) + LastMark(gaps, words)
  {
    if words == [] {
      CollapseGap(gaps[0], [], false);
      assert gaps[0] + [] == gaps[0];
    } else {
      hide *;
      TailText(gaps, words);
      CollapseText(gaps[1..], words[1..]);
      CollapseMore(gaps, words);
    }
  }

  lemma CollapseMore(gaps: seq<string>, words: seq<string>)
    requires |gaps| == |words| + 1 && AreGaps(gaps) && AreWords(words) && words != []
    requires Collapse(Text(gaps[1..], words[1..]), false)
             == Mark(gaps[1]) + Joined(words[1..]) + LastMark(gaps[1..], words[1..])
    ensures Collapse(Text(gaps, words), false) == Mark(gaps[0]) + Joined(words) + LastMark(gaps, words)
  {
    hide Collapse, Joined, AreGaps, AreWords, IsGap, IsWord, Mark, LastMark;
    TailText(gaps, words);
    CollapseStep(gaps[0], words[0], Text(gaps[1..], words[1..]));
    AfterWord(gaps, words);
    Regroup(Mark(gaps[0]), words[0] + Collapse(Text(gaps[1..], words[1..]), false), Joined(words),
            LastMark(gaps, words));
  }

  lemma CollapseStep(g: string, w: string, rest: string)
    requires IsGap(g) && IsWord(w)
    ensures Collapse(g + w + rest, false) == Mark(g) + (w + Collapse(rest, false))
  {
    hide Collapse, IsGap, IsWord;
    assert g + w + rest == g + (w + rest);
    CollapseGap(g, w + rest, false);
    CollapseWord(w, rest, false);
    CollapseWord(w, rest, true);
    assert "" + (w + Collapse(rest, false)) == w + Collapse(rest, false);
  }

  lemma Regroup(front: string, all: string, middle: string, back: string)
    requires all == middle + back
    ensures front + all == front + middle + back
  {
  }

  lemma AfterWord(gaps: seq<string>, words: seq<string>)
    requires |gaps| == |words| + 1 && words != [] && AreGaps(gaps)
    ensures words[0] + (Mark(gaps[1]) + Joined(words[1..]) + LastMark(gaps[1..], words[1..]))
            == Joined(words) + LastMark(gaps, words)
  {
    hide *;
    var marks := LastMark(gaps, words);
    if |words| == 1 {
      LastWord(gaps, words);
      Alone(words[0], marks);
    } else {
      InnerWord(gaps, words);
      Around(words[0], Joined(words[1..]), marks);
    }
  }

  lemma LastWord(gaps: seq<string>, words: seq<string>)
    requires |gaps| == |words| + 1 && |words| == 1
    ensures Mark(gaps[1]) == LastMark(gaps, words) && Joined(words[1..]) == "" && Joined(words) == words[0]
    ensures LastMark(gaps[1..], words[1..]) == ""
  {
  }

  lemma InnerWord(gaps: seq<string>, words: seq<string>)
    requires |gaps| == |words| + 1 && |words| > 1 && AreGaps(gaps)
    ensures Mark(gaps[1]) == "_" && Joined(words) == words[0] + "_" + Joined(words[1..])
    ensures LastMark(gaps[1..], words[1..]) == LastMark(gaps, words)
  {
    assert gaps[1..][|words| - 1] == gaps[|words|];
  }

  lemma Alone(word: string, mark: string)
    ensures word + (mark + "" + "") == word + mark
  {
    assert mark + "" + "" == mark;
  }

  lemma Around(word: string, rest: string, mark: string)
    ensures word + ("_" + rest + mark) == word + "_" + rest + mark
  {
    assert word + ("_" + rest + mark) == (word + "_") + (rest + mark);
  }

  /** slug is the words of the lower-cased text joined by single underscores, whatever
      stands between and around them. */
  lemma SlugJoinsWords(lower: string -> string, s: string, gaps: seq<string>, words: seq<string>)
    requires |gaps| == |words| + 1 && AreGaps(gaps) && AreWords(words) && lower(s) == Text(gaps, words)
    ensures Slug(lower, s) == Joined(words)
  {
    CollapseText(gaps, words);
    JoinedEnds(words);
    TrimEnds(Mark(gaps[0]), Joined(words), LastMark(gaps, words));
  }

  lemma {:induction false} JoinedEnds(words: seq<string>)
    requires AreWords(words)
    ensures words != [] ==> Joined(words) != [] && Joined(words)[0] != '_' && Joined(words)[|Joined(words)| - 1] != '_'
    ensures words == [] ==> Joined(words) == []
  {
    if |words| > 1 {
      JoinedEnds(words[1..]);
    }
  }

  lemma TrimEnds(front: string, s: string, back: string)
    requires front in {"", "_"} && back in {"", "_"} && (s == [] ==> back == "")
    requires s != [] ==> s[0] != '_' && s[|s| - 1] != '_'
    ensures Trim(front + s + back) == s
  {
    var t := s + back;
    assert front + s + back == front + t;
    if front == "_" {
      assert (front + t)[1..] == t;
    } else {
      assert front + t == t;
    }
    if back == "_" {
      assert t[..|t| - 1] == s;
    } else {
      assert t == s;
    }
  }

  // ------------------------------------------------------------- ASCII

  predicate IsAscii(s: string)
  {
    forall i | 0 <= i < |s| :: s[i] < 128 as char
  }

  function LowerChar(ch: char): char
  {
    if 'A' <= ch <= 'Z' then (ch as int + 32) as char else ch
  }

  function LowerAscii(s: string): string
  {
    seq(|s|, i requires 0 <= i < |s| => LowerChar(s[i]))
  }

  /** Keep the letters and digits. */
  function Letters(s: string): string
  {
    if s == [] then [] else (if IsAlnum(s[0]) then [s[0]] else []) + Letters(s[1..])
  }

  /** Lower-casing and folding behave on ASCII text as Unicode says they do: no
      decomposition, no diacritics, A to Z become a to z. */
  ghost predicate AsciiRules(lower: string -> string, clean: string -> string)
  {
    forall s | IsAscii(s) :: lower(s) == LowerAscii(s) && clean(s) == Letters(LowerAscii(s))
  }

  function WithoutUnderscores(s: string): string
  {
    if s == [] then [] else (if s[0] == '_' then [] else [s[0]]) + WithoutUnderscores(s[1..])
  }

  lemma {:induction false} CollapseKeepsLetters(s: string, inRun: bool)
    ensures WithoutUnderscores(Collapse(s, inRun)) == Letters(s)
  {
    if s != [] {
      CollapseKeepsLetters(s[1..], !IsAlnum(s[0]));
    }
  }

  lemma {:induction false} LastUnderscore(s: string)
    requires s != [] && s[|s| - 1] == '_'
    ensures WithoutUnderscores(s[..|s| - 1]) == WithoutUnderscores(s)
  {
    if |s| > 1 {
      LastUnderscore(s[1..]);
      assert s[1..][..|s| - 2] == s[..|s| - 1][1..];
    }
  }

  lemma TrimKeepsLetters(s: string)
    ensures WithoutUnderscores(Trim(s)) == WithoutUnderscores(s)
  {
    var t := if s != [] && s[0] == '_' then s[1..] else s;
    assert WithoutUnderscores(t) == WithoutUnderscores(s);
    hide WithoutUnderscores;
    if t != [] && t[|t| - 1] == '_' {
      LastUnderscore(t);
    }
  }

  /** Erasing the underscores of an ASCII slug gives the cluster key's letters. */
  lemma SlugRefinesKey(lower: string -> string, clean: string -> string, s: string)
    requires AsciiRules(lower, clean) && IsAscii(s)
    ensures WithoutUnderscores(Slug(lower, s)) == clean(s)
  {
    TrimKeepsLetters(Collapse(lower(s), false));
    CollapseKeepsLetters(lower(s), false);
  }

  // ------------------------------------------------------------- keys

  /** slug(rep) || rep.toLowerCase().slice(0, 60) || "_" */
  function SeedKey(lower: string -> string, rep: string): (key: string)
    ensures key != ""
  {
    if Slug(lower, rep) != "" then Slug(lower, rep)
    else if lower(rep) == "" then "_"
    else if |lower(rep)| <= 60 then lower(rep)
    else lower(rep)[..60]
  }

  /** What a value without letters or digits is keyed by. */
  function Shown(rep: string): string
  {
    if rep == "" then "_" else if |rep| <= 60 then rep else rep[..60]
  }

  lemma {:induction false} NoLetters(s: string)
    ensures Letters(s) == [] <==> forall i | 0 <= i < |s| :: !IsAlnum(s[i])
  {
    if s != [] {
      NoLetters(s[1..]);
      assert forall i | 1 <= i < |s| :: s[i] == s[1..][i - 1];
    }
  }

  /** A punctuation-only value is keyed by itself, cut at 60 characters. */
  lemma PunctuationKey(lower: string -> string, clean: string -> string, rep: string)
    requires AsciiRules(lower, clean) && IsAscii(rep) && clean(rep) == ""
    ensures SeedKey(lower, rep) == Shown(rep)
    ensures forall i | 0 <= i < |Shown(rep)| :: !IsAlnum(Shown(rep)[i])
  {
    SlugRefinesKey(lower, clean, rep);
    SlugIsNeat(lower, rep);
    OnlyUnderscores(Slug(lower, rep));
    NoLetters(LowerAscii(rep));
    assert forall i | 0 <= i < |rep| :: LowerAscii(rep)[i] == LowerChar(rep[i]);
    assert forall i | 0 <= i < |rep| :: !IsAlnum(LowerChar(rep[i]));
    assert LowerAscii(rep) == rep;
  }

  /** Neat text without letters or digits is empty. */
  lemma OnlyUnderscores(s: string)
    requires Neat(s) && WithoutUnderscores(s) == ""
    ensures s == ""
  {
  }

  lemma LetteredKey(lower: string -> string, clean: string -> string, rep: string)
    requires AsciiRules(lower, clean) && IsAscii(rep) && clean(rep) != ""
    ensures WithoutUnderscores(SeedKey(lower, rep)) == clean(rep)
    ensures SeedKey(lower, rep) != [] && IsAlnum(SeedKey(lower, rep)[0])
  {
    SlugRefinesKey(lower, clean, rep);
    SlugIsNeat(lower, rep);
  }

  /** Over ASCII, two values that cluster apart are seeded under one key exactly
      when neither has a letter or digit and they agree on what is shown of them:
      the first 60 characters, or an underscore for the empty value. */
  lemma KeysClashIff(lower: string -> string, clean: string -> string, a: string, b: string)
    requires AsciiRules(lower, clean) && IsAscii(a) && IsAscii(b)
    requires NormalizeKey(clean, a) != NormalizeKey(clean, b)
    ensures SeedKey(lower, a) == SeedKey(lower, b) <==> clean(a) == "" && clean(b) == "" && Shown(a) == Shown(b)
  {
    if clean(a) == "" {
      PunctuationKey(lower, clean, a);
    } else {
      LetteredKey(lower, clean, a);
    }
    if clean(b) == "" {
      PunctuationKey(lower, clean, b);
    } else {
      LetteredKey(lower, clean, b);
    }
  }

  /** Outside ASCII the promise that distinct clusters get distinct keys fails: slug
      drops an accented letter that folding keeps. */
  lemma AccentsClash(lower: string -> string, clean: string -> string)
    requires lower("\U{E9}1") == "\U{E9}1" && lower("1") == "1"
    requires clean("\U{E9}1") == "e1" && clean("1") == "1"
    ensures NormalizeKey(clean, "\U{E9}1") != NormalizeKey(clean, "1")
    ensures SeedKey(lower, "\U{E9}1") == SeedKey(lower, "1") == "1"
  {
    var accented := "\U{E9}1";
    assert accented[1..] == "1" && "1"[1..] == "";
    assert Collapse("1", true) == "1" && Collapse("1", false) == "1";
    assert Collapse(accented, false) == "_1";
    assert Trim("_1") == "1" && Trim("1") == "1";
  }

  // ------------------------------------------------------------- clusters

  datatype SeedCluster = SeedCluster(rep: string, raws: seq<string>)

  /** The values with one cluster key, in their order. */
  function RawsOf(clean: string -> string, values: seq<string>, key: string): seq<string>
  {
    if values == [] then []
    else
      var init, last := values[..|values| - 1], values[|values| - 1];
      if NormalizeKey(clean, last) == key then RawsOf(clean, init, key) + [last] else RawsOf(clean, init, key)
  }

  /** The values that are the first with their key, in their order. */
  function Reps(clean: string -> string, values: seq<string>): seq<string>
  {
    if values == [] then []
    else
      var init, last := values[..|values| - 1], values[|values| - 1];
      if RawsOf(clean, init, NormalizeKey(clean, last)) == [] then Reps(clean, init) + [last] else Reps(clean, init)
  }

  /** The values with a key, taken from two lists in turn, and from one value. */
  lemma {:induction false} RawsOfParts(clean: string -> string, a: seq<string>, b: seq<string>, key: string)
    ensures RawsOf(clean, a + b, key) == RawsOf(clean, a, key) + RawsOf(clean, b, key)
    ensures forall v :: RawsOf(clean, [v], key) == if NormalizeKey(clean, v) == key then [v] else []
  {
    forall v
      ensures RawsOf(clean, [v], key) == if NormalizeKey(clean, v) == key then [v] else []
    {
      assert [v][..0] == [] && RawsOf(clean, [v][..0], key) == [];
    }
    if b == [] {
      assert a + b == a;
    } else {
      var init, last := b[..|b| - 1], b[|b| - 1];
      assert (a + b)[..|a + b| - 1] == a + init && (a + b)[|a + b| - 1] == last;
      RawsOfParts(clean, a, init, key);
    }
  }

  /** The groups so far: one per representative, in that order. */
  ghost predicate Clustered(clean: string -> string, values: seq<string>, order: seq<string>,
                            byKey: map<string, SeedCluster>)
  {
    Groups(clean, k => RawsOf(clean, values, k), Reps(clean, values), order, byKey)
  }

  ghost predicate Groups(clean: string -> string, raws: string -> seq<string>, reps: seq<string>,
                         order: seq<string>, byKey: map<string, SeedCluster>)
  {
    && |order| == |reps|
    && (forall i | 0 <= i < |order| :: order[i] in byKey && byKey[order[i]].rep == reps[i])
    && (forall i, j | 0 <= i < j < |order| :: order[i] != order[j])
    && (forall k :: k in byKey <==> k in order)
    && (forall k :: k in byKey <==> raws(k) != [])
    && (forall k | k in byKey ::
          byKey[k].raws == raws(k) && byKey[k].rep == byKey[k].raws[0] && NormalizeKey(clean, byKey[k].rep) == k)
  }

  lemma GroupJoined(clean: string -> string, before: string -> seq<string>, after: string -> seq<string>,
                    reps: seq<string>, order: seq<string>, byKey: map<string, SeedCluster>, v: string, key: string)
    requires Groups(clean, before, reps, order, byKey) && key in byKey
    requires forall k :: after(k) == if k == key then before(k) + [v] else before(k)
    ensures Groups(clean, after, reps, order, byKey[key := byKey[key].(raws := byKey[key].raws + [v])])
  {
  }

  lemma GroupOpened(clean: string -> string, before: string -> seq<string>, after: string -> seq<string>,
                    reps: seq<string>, order: seq<string>, byKey: map<string, SeedCluster>, v: string, key: string)
    requires Groups(clean, before, reps, order, byKey) && key !in byKey && NormalizeKey(clean, v) == key
    requires forall k :: after(k) == if k == key then before(k) + [v] else before(k)
    ensures Groups(clean, after, reps + [v], order + [key], byKey[key := SeedCluster(v, [v])])
  {
    hide NormalizeKey;
    assert forall i | 0 <= i < |order| :: order[i] in order;
  }

  lemma RawsNext(clean: string -> string, values: seq<string>, v: string, k: string)
    ensures RawsOf(clean, values + [v], k) ==
            if NormalizeKey(clean, v) == k then RawsOf(clean, values, k) + [v] else RawsOf(clean, values, k)
    ensures Reps(clean, values + [v]) ==
            if RawsOf(clean, values, NormalizeKey(clean, v)) == [] then Reps(clean, values) + [v]
            else Reps(clean, values)
  {
    var all := values + [v];
    assert all[..|all| - 1] == values;
  }

  lemma ClusteredNext(clean: string -> string, values: seq<string>, v: string, order: seq<string>,
                      byKey: map<string, SeedCluster>)
    requires Clustered(clean, values, order, byKey)
    ensures var k := NormalizeKey(clean, v);
            && (k in byKey ==>
                  Clustered(clean, values + [v], order, byKey[k := byKey[k].(raws := byKey[k].raws + [v])]))
            && (k !in byKey ==> Clustered(clean, values + [v], order + [k], byKey[k := SeedCluster(v, [v])]))
  {
    var key := NormalizeKey(clean, v);
    var before := k => RawsOf(clean, values, k);
    var after := k => RawsOf(clean, values + [v], k);
    forall k
      ensures after(k) == if k == key then before(k) + [v] else before(k)
    {
      RawsNext(clean, values, v, k);
    }
    RawsNext(clean, values, v, key);
    if key in byKey {
      GroupJoined(clean, before, after, Reps(clean, values), order, byKey, v, key);
    } else {
      GroupOpened(clean, before, after, Reps(clean, values), order, byKey, v, key);
    }
  }

  /** One cluster per key, in the order in which the keys were first seen, each
      with its first value as representative and all its values in order. */
  ghost predicate IsSeedClustering(clean: string -> string, values: seq<string>, clusters: seq<SeedCluster>)
  {
    && |clusters| == |Reps(clean, values)|
    && (forall i | 0 <= i < |clusters| ::
          && clusters[i].rep == Reps(clean, values)[i]
          && clusters[i].raws == RawsOf(clean, values, NormalizeKey(clean, clusters[i].rep))
          && clusters[i].raws != [] && clusters[i].rep == clusters[i].raws[0])
    && (forall i, j | 0 <= i < j < |clusters| ::
          NormalizeKey(clean, clusters[i].rep) != NormalizeKey(clean, clusters[j].rep))
    && (forall v | v in values :: exists i | 0 <= i < |clusters| :: v in clusters[i].raws)
  }

  lemma ClusteredIsSeed(clean: string -> string, values: seq<string>, order: seq<string>,
                        byKey: map<string, SeedCluster>,
                        clusters: seq<SeedCluster>)
    requires Clustered(clean, values, order, byKey) && |clusters| == |order|
    requires forall i | 0 <= i < |order| :: clusters[i] == byKey[order[i]]
    ensures IsSeedClustering(clean, values, clusters)
  {
    forall v | v in values
      ensures exists i | 0 <= i < |clusters| :: v in clusters[i].raws
    {
      RawsHold(clean, values, NormalizeKey(clean, v));
      var raws := k => RawsOf(clean, values, k);
      assert raws(NormalizeKey(clean, v)) != [];
      var i :| 0 <= i < |order| && order[i] == NormalizeKey(clean, v);
      assert v in clusters[i].raws;
    }
  }

  /** The representatives are the first values of their kind, in the order of the values. */
  lemma {:induction false} RepsAreFirst(clean: string -> string, values: seq<string>, i: nat, j: nat)
    returns (a: nat, b: nat)
    requires i <= j < |Reps(clean, values)|
    ensures a < |values| && values[a] == Reps(clean, values)[i] && IsFirst(clean, values, a)
    ensures b < |values| && values[b] == Reps(clean, values)[j] && IsFirst(clean, values, b)
    ensures i < j ==> a < b
  {
    hide NormalizeKey, RawsOf, IsFirst;
    var init, last := values[..|values| - 1], values[|values| - 1];
    if j < |Reps(clean, init)| {
      a, b := RepsAreFirst(clean, init, i, j);
      FirstInLonger(clean, values, a);
      FirstInLonger(clean, values, b);
    } else {
      b := |values| - 1;
      NewIsFirst(clean, values);
      a := b;
      if i < j {
        var same: nat;
        a, same := RepsAreFirst(clean, init, i, i);
        FirstInLonger(clean, values, a);
      }
    }
  }

  lemma FirstInLonger(clean: string -> string, values: seq<string>, i: nat)
    requires i < |values| - 1 && IsFirst(clean, values[..|values| - 1], i)
    ensures IsFirst(clean, values, i)
  {
    hide NormalizeKey;
    assert forall m | 0 <= m <= i :: values[m] == values[..|values| - 1][m];
  }

  lemma NewIsFirst(clean: string -> string, values: seq<string>)
    requires |values| > 0
    requires RawsOf(clean, values[..|values| - 1], NormalizeKey(clean, values[|values| - 1])) == []
    ensures IsFirst(clean, values, |values| - 1)
  {
    hide NormalizeKey, RawsOf;
    var init := values[..|values| - 1];
    RawsHold(clean, init, NormalizeKey(clean, values[|values| - 1]));
    assert forall m | 0 <= m < |values| - 1 :: values[m] == init[m] && init[m] in init;
  }

  /** No earlier value folds together with the one at i. */
  ghost predicate IsFirst(clean: string -> string, values: seq<string>, i: nat)
    requires i < |values|
  {
    forall m | 0 <= m < i :: NormalizeKey(clean, values[m]) != NormalizeKey(clean, values[i])
  }

  /** So are those of the clusters. */
  lemma SeedsFirstSeen(clean: string -> string, values: seq<string>, clusters: seq<SeedCluster>, i: nat, j: nat)
    returns (a: nat, b: nat)
    requires IsSeedClustering(clean, values, clusters) && i < j < |clusters|
    ensures a < b < |values| && values[a] == clusters[i].rep && values[b] == clusters[j].rep
    ensures IsFirst(clean, values, a) && IsFirst(clean, values, b)
  {
    a, b := RepsAreFirst(clean, values, i, j);
  }

  lemma NothingClustered(clean: string -> string)
    ensures Clustered(clean, [], [], map[])
  {
  }

  lemma OrderIsKnown(clean: string -> string, values: seq<string>, order: seq<string>, byKey: map<string, SeedCluster>)
    requires Clustered(clean, values, order, byKey)
    ensures forall i | 0 <= i < |order| :: order[i] in byKey
  {
  }

  /** clusterForSeed */
  method ClusterForSeed(clean: string -> string, values: seq<string>) returns (clusters: seq<SeedCluster>)
    ensures IsSeedClustering(clean, values, clusters)
  {
    hide NormalizeKey, Clustered, IsSeedClustering;
    var order: seq<string>, byKey: map<string, SeedCluster> := [], map[];
    NothingClustered(clean);
    for i := 0 to |values|
      invariant Clustered(clean, values[..i], order, byKey)
    {
      var v := values[i];
      var k := NormalizeKey(clean, v);
      ClusteredNext(clean, values[..i], v, order, byKey);
      assert values[..i + 1] == values[..i] + [v];
      if k in byKey {
        byKey := byKey[k := byKey[k].(raws := byKey[k].raws + [v])];
      } else {
        byKey := byKey[k := SeedCluster(v, [v])];
        order := order + [k];
      }
    }
    assert values[..|values|] == values;
    OrderIsKnown(clean, values, order, byKey);
    clusters := seq(|order|, i requires 0 <= i < |order| => byKey[order[i]]);
    ClusteredIsSeed(clean, values, order, byKey, clusters);
  }

  /** The representative of a value's cluster. */
  function RepOf(clean: string -> string, values: seq<string>, v: string): (rep: string)
    requires v in values
    ensures NormalizeKey(clean, rep) == NormalizeKey(clean, v)
  {
    RawsHold(clean, values, NormalizeKey(clean, v));
    RawsOf(clean, values, NormalizeKey(clean, v))[0]
  }

  lemma RepIsValue(clean: string -> string, values: seq<string>, v: string)
    requires v in values
    ensures RepOf(clean, values, v) in values
  {
    RawsHold(clean, values, NormalizeKey(clean, v));
  }

  lemma {:induction false} RawsHold(clean: string -> string, values: seq<string>, key: string)
    ensures forall v :: v in RawsOf(clean, values, key) <==> v in values && NormalizeKey(clean, v) == key
  {
    if values != [] {
      var init, last := values[..|values| - 1], values[|values| - 1];
      assert values == init + [last];
      RawsHold(clean, init, key);
    }
  }

  // ------------------------------------------------------------- seeding

  /** No two clusters get one key. */
  ghost predicate KeysApart(lower: string -> string, clean: string -> string, values: seq<string>)
  {
    forall v, w | v in values && w in values && NormalizeKey(clean, v) != NormalizeKey(clean, w) ::
      SeedKey(lower, v) != SeedKey(lower, w)
  }

  /** Over ASCII the keys stay apart as long as values without letters or digits are
      not empty and at most 60 characters long. */
  lemma AsciiKeysApart(lower: string -> string, clean: string -> string, values: seq<string>)
    requires AsciiRules(lower, clean) && forall v | v in values :: IsAscii(v)
    requires forall v | v in values && clean(v) == "" :: v != "" && |v| <= 60
    ensures KeysApart(lower, clean, values)
  {
    forall v, w | v in values && w in values && NormalizeKey(clean, v) != NormalizeKey(clean, w)
      ensures SeedKey(lower, v) != SeedKey(lower, w)
    {
      KeysClashIff(lower, clean, v, w);
    }
  }

  lemma RepOfRaw(clean: string -> string, values: seq<string>, c: SeedCluster, v: string)
    requires c.raws == RawsOf(clean, values, NormalizeKey(clean, c.rep)) && c.raws != [] && c.rep == c.raws[0]
    requires v in c.raws
    ensures v in values && RepOf(clean, values, v) == c.rep
  {
    RawsHold(clean, values, NormalizeKey(clean, c.rep));
  }

  lemma KeysTellApart(lower: string -> string, clean: string -> string, values: seq<string>, v: string, w: string)
    requires KeysApart(lower, clean, values) && v in values && w in values
    ensures SeedKey(lower, RepOf(clean, values, v)) == SeedKey(lower, RepOf(clean, values, w)) <==>
            NormalizeKey(clean, v) == NormalizeKey(clean, w)
  {
    hide SeedKey;
    if NormalizeKey(clean, v) != NormalizeKey(clean, w) {
      RepIsValue(clean, values, v);
      RepIsValue(clean, values, w);
    }
  }

  lemma SeedsSeparate(lower: string -> string, clean: string -> string, values: seq<string>,
                      mapping: map<string, string>)
    requires KeysApart(lower, clean, values)
    requires forall v | v in values :: v in mapping && mapping[v] == SeedKey(lower, RepOf(clean, values, v))
    ensures forall v, w | v in values && w in values ::
              mapping[v] == mapping[w] <==> NormalizeKey(clean, v) == NormalizeKey(clean, w)
  {
    hide SeedKey, NormalizeKey, KeysApart;
    forall v, w | v in values && w in values
      ensures mapping[v] == mapping[w] <==> NormalizeKey(clean, v) == NormalizeKey(clean, w)
    {
      KeysTellApart(lower, clean, values, v, w);
    }
  }

  /** INSERT INTO map_ ... ON CONFLICT (raw) DO NOTHING */
  method MapRaws(mapping: map<string, string>, raws: seq<string>, key: string) returns (after: map<string, string>)
    ensures forall v :: v in after <==> v in mapping || v in raws
    ensures forall v | v in after :: after[v] == if v in mapping then mapping[v] else key
  {
    after := mapping;
    for i := 0 to |raws|
      invariant forall v :: v in after <==> v in mapping || v in raws[..i]
      invariant forall v | v in after :: after[v] == if v in mapping then mapping[v] else key
    {
      assert raws[..i + 1] == raws[..i] + [raws[i]];
      if raws[i] !in after {
        after := after[raws[i] := key];
      }
    }
    assert raws[..|raws|] == raws;
  }

  /** The mapping after the first i clusters. */
  ghost predicate PartMapped(lower: string -> string, clean: string -> string, values: seq<string>,
                             clusters: seq<SeedCluster>, i: nat, mapping: map<string, string>)
    requires i <= |clusters|
  {
    && (forall v | v in mapping :: v in values && mapping[v] == SeedKey(lower, RepOf(clean, values, v)))
    && (forall v, j | 0 <= j < i && v in clusters[j].raws :: v in mapping)
  }

  /** The records after the first i keys: of those with one key the last gives the label. */
  ghost predicate PartLabelled(keys: seq<string>, reps: seq<string>, i: nat, records: map<string, string>)
    requires i <= |keys| == |reps|
  {
    forall j | 0 <= j < i ::
      keys[j] in records && ((forall m | j < m < i :: keys[m] != keys[j]) ==> records[keys[j]] == reps[j])
  }

  ghost function KeysOf(lower: string -> string, clusters: seq<SeedCluster>): seq<string>
  {
    seq(|clusters|, i requires 0 <= i < |clusters| => SeedKey(lower, clusters[i].rep))
  }

  ghost function RepsIn(clusters: seq<SeedCluster>): seq<string>
  {
    seq(|clusters|, i requires 0 <= i < |clusters| => clusters[i].rep)
  }

  lemma KeysDiffer(lower: string -> string, clean: string -> string, values: seq<string>,
                   clusters: seq<SeedCluster>, i: nat, j: nat)
    requires IsSeedClustering(clean, values, clusters) && KeysApart(lower, clean, values) && i < j < |clusters|
    ensures KeysOf(lower, clusters)[i] != KeysOf(lower, clusters)[j]
  {
    RepOfRaw(clean, values, clusters[i], clusters[i].rep);
    RepOfRaw(clean, values, clusters[j], clusters[j].rep);
  }

  lemma NextMapped(lower: string -> string, clean: string -> string, values: seq<string>,
                   clusters: seq<SeedCluster>, i: nat,
                   mapping: map<string, string>, after: map<string, string>)
    requires IsSeedClustering(clean, values, clusters) && i < |clusters|
    requires PartMapped(lower, clean, values, clusters, i, mapping)
    requires forall v :: v in after <==> v in mapping || v in clusters[i].raws
    requires forall v | v in after :: after[v] == if v in mapping then mapping[v] else SeedKey(lower, clusters[i].rep)
    ensures PartMapped(lower, clean, values, clusters, i + 1, after)
  {
    forall v | v in clusters[i].raws
      ensures v in values && RepOf(clean, values, v) == clusters[i].rep
    {
      RepOfRaw(clean, values, clusters[i], v);
    }
  }

  lemma SeedsDone(lower: string -> string, clean: string -> string, values: seq<string>, clusters: seq<SeedCluster>,
                  apart: bool, records: map<string, string>, mapping: map<string, string>, v: string)
    requires IsSeedClustering(clean, values, clusters) && v in values
    requires PartLabelled(KeysOf(lower, clusters), RepsIn(clusters), |clusters|, records)
    requires PartMapped(lower, clean, values, clusters, |clusters|, mapping)
    requires apart ==> KeysApart(lower, clean, values)
    ensures v in mapping && mapping[v] in records
    ensures apart ==> records[mapping[v]] == RepOf(clean, values, v)
  {
    hide SeedKey, NormalizeKey, RawsOf, Reps, RepOf, KeysApart;
    var i :| 0 <= i < |clusters| && v in clusters[i].raws;
    RepOfRaw(clean, values, clusters[i], v);
    assert mapping[v] == KeysOf(lower, clusters)[i];
    if apart {
      forall m | i < m < |clusters|
        ensures KeysOf(lower, clusters)[m] != KeysOf(lower, clusters)[i]
      {
        KeysDiffer(lower, clean, values, clusters, i, m);
      }
    }
  }

  /** The keys of the clusters. */
  ghost function SeedKeysOf(lower: string -> string, clean: string -> string, values: seq<string>): set<string>
  {
    set v | v in values :: SeedKey(lower, RepOf(clean, values, v))
  }

  lemma KeysAreSeeds(lower: string -> string, clean: string -> string, values: seq<string>, clusters: seq<SeedCluster>)
    requires IsSeedClustering(clean, values, clusters)
    ensures forall k | k in KeysOf(lower, clusters) :: k in SeedKeysOf(lower, clean, values)
  {
    forall i | 0 <= i < |clusters|
      ensures KeysOf(lower, clusters)[i] in SeedKeysOf(lower, clean, values)
    {
      RepOfRaw(clean, values, clusters[i], clusters[i].rep);
    }
  }

  /** The seeded records and mappings: every value is mapped, to the key of its
      cluster's representative, which is a record; and when no two clusters share a
      key, two values map to one record exactly when they fold together, and the
      record is labelled with the value seen first. */
  method DeriveSeeds(lower: string -> string, clean: string -> string, values: seq<string>)
    returns (records: map<string, string>, mapping: map<string, string>, ghost clusters: seq<SeedCluster>)
    ensures records.Keys == SeedKeysOf(lower, clean, values)
    ensures forall v :: v in mapping <==> v in values
    ensures forall v | v in values :: mapping[v] == SeedKey(lower, RepOf(clean, values, v)) && mapping[v] in records
    ensures KeysApart(lower, clean, values) ==>
              && (forall v | v in values :: records[mapping[v]] == RepOf(clean, values, v))
              && (forall v, w | v in values && w in values ::
                    mapping[v] == mapping[w] <==> NormalizeKey(clean, v) == NormalizeKey(clean, w))
    ensures IsSeedClustering(clean, values, clusters) && LastLabels(lower, clusters, records)
  {
    hide PartLabelled, PartMapped, KeysApart, NormalizeKey, SeedKey, RepOf, SeedKeysOf, IsSeedClustering, LastLabels;
    var list := ClusterForSeed(clean, values);
    clusters := list;
    ghost var apart := KeysApart(lower, clean, values);
    ghost var keys, reps := KeysOf(lower, clusters), RepsIn(clusters);
    records, mapping := map[], map[];
    NothingSeeded(lower, clean, values, clusters);
    for i := 0 to |list|
      invariant PartLabelled(keys, reps, i, records) && forall k | k in records :: k in keys
      invariant PartMapped(lower, clean, values, clusters, i, mapping)
    {
      var k := SeedKey(lower, list[i].rep);
      assert keys[i] == k && reps[i] == list[i].rep;
      var after := MapRaws(mapping, list[i].raws, k);
      NextMapped(lower, clean, values, clusters, i, mapping, after);
      PutLabel(keys, reps, i, records);
      records, mapping := records[k := list[i].rep], after;
    }
    AllLabelled(lower, clusters, records);
    SeedsMeet(lower, clean, values, clusters, apart, records, mapping);
    SeedsAll(lower, clean, values, clusters, apart, records, mapping);
  }

  lemma NothingSeeded(lower: string -> string, clean: string -> string, values: seq<string>, clusters: seq<SeedCluster>)
    ensures PartLabelled(KeysOf(lower, clusters), RepsIn(clusters), 0, map[])
    ensures PartMapped(lower, clean, values, clusters, 0, map[])
  {
  }

  /** Each cluster's key is a record, labelled with the representative of the last cluster
      that has this key. */
  ghost predicate LastLabels(lower: string -> string, clusters: seq<SeedCluster>, records: map<string, string>)
  {
    forall j | 0 <= j < |clusters| ::
      && SeedKey(lower, clusters[j].rep) in records
      && ((forall m | j < m < |clusters| :: SeedKey(lower, clusters[m].rep) != SeedKey(lower, clusters[j].rep)) ==>
            records[SeedKey(lower, clusters[j].rep)] == clusters[j].rep)
  }

  lemma AllLabelled(lower: string -> string, clusters: seq<SeedCluster>, records: map<string, string>)
    requires PartLabelled(KeysOf(lower, clusters), RepsIn(clusters), |clusters|, records)
    ensures LastLabels(lower, clusters, records)
  {
    hide SeedKey;
    var keys, reps := KeysOf(lower, clusters), RepsIn(clusters);
    assert forall j | 0 <= j < |clusters| :: keys[j] == SeedKey(lower, clusters[j].rep) && reps[j] == clusters[j].rep;
  }

  lemma SeedOf(lower: string -> string, clean: string -> string, values: seq<string>, k: string) returns (v: string)
    requires k in SeedKeysOf(lower, clean, values)
    ensures v in values && k == SeedKey(lower, RepOf(clean, values, v))
  {
    v :| v in values && k == SeedKey(lower, RepOf(clean, values, v));
  }

  /** No record and no mapping but those of the values. */
  lemma SeedsAll(lower: string -> string, clean: string -> string, values: seq<string>, clusters: seq<SeedCluster>,
                 apart: bool, records: map<string, string>, mapping: map<string, string>)
    requires IsSeedClustering(clean, values, clusters) && forall k | k in records :: k in KeysOf(lower, clusters)
    requires PartMapped(lower, clean, values, clusters, |clusters|, mapping)
    requires forall v | v in values :: v in mapping && mapping[v] in records
    ensures records.Keys == SeedKeysOf(lower, clean, values)
    ensures forall v :: v in mapping <==> v in values
    ensures forall v | v in values :: mapping[v] == SeedKey(lower, RepOf(clean, values, v))
  {
    hide IsSeedClustering, SeedKey, RepOf, KeysOf, SeedKeysOf;
    KeysAreSeeds(lower, clean, values, clusters);
    forall k | k in SeedKeysOf(lower, clean, values)
      ensures k in records
    {
      var v := SeedOf(lower, clean, values, k);
    }
  }

  lemma PutLabel(keys: seq<string>, reps: seq<string>, i: nat, records: map<string, string>)
    requires i < |keys| == |reps| && PartLabelled(keys, reps, i, records)
    ensures PartLabelled(keys, reps, i + 1, records[keys[i] := reps[i]])
  {
    forall j | 0 <= j < i && forall m | j < m < i + 1 :: keys[m] != keys[j]
      ensures keys[j] != keys[i] && forall m | j < m < i :: keys[m] != keys[j]
    {
    }
  }

  lemma SeedsMeet(lower: string -> string, clean: string -> string, values: seq<string>, clusters: seq<SeedCluster>,
                  apart: bool, records: map<string, string>, mapping: map<string, string>)
    requires IsSeedClustering(clean, values, clusters) && (apart ==> KeysApart(lower, clean, values))
    requires PartLabelled(KeysOf(lower, clusters), RepsIn(clusters), |clusters|, records)
    requires PartMapped(lower, clean, values, clusters, |clusters|, mapping)
    ensures forall v | v in values :: v in mapping && mapping[v] in records
    ensures apart ==> forall v | v in values :: records[mapping[v]] == RepOf(clean, values, v)
    ensures apart ==> forall v, w | v in values && w in values ::
              mapping[v] == mapping[w] <==> NormalizeKey(clean, v) == NormalizeKey(clean, w)
  {
    forall v | v in values
      ensures v in mapping && mapping[v] in records && (apart ==> records[mapping[v]] == RepOf(clean, values, v))
    {
      SeedsDone(lower, clean, values, clusters, apart, records, mapping, v);
    }
    if apart {
      SeedsSeparate(lower, clean, values, mapping);
    }
  }

  // ------------------------------------------------------------- tables in use

  /** Labels by key, keys by raw, and a version row of some kind by key. */
  datatype Tables<V> = Tables(records: map<string, string>, mapping: map<string, string>, versions: map<string, V>)

  /** INSERT ... ON CONFLICT DO NOTHING */
  function InsertAbsent<V>(table: map<string, V>, rows: map<string, V>): (after: map<string, V>)
    ensures after.Keys == table.Keys + rows.Keys
    ensures forall k | k in after :: after[k] == if k in table then table[k] else rows[k]
  {
    rows + table
  }

  /** What seeding tables in use leaves: rows that are there stay as they are, whatever
      they say, version rows of tombstones included; every value without a mapping is
      mapped to its cluster's key; and each such key has a record and a version row. */
  ghost predicate SeededInto<V(!new)>(lower: string -> string, clean: string -> string, values: seq<string>,
                                      t: Tables<V>, row: V, after: Tables<V>)
  {
    var keys := SeedKeysOf(lower, clean, values);
    && after.records.Keys == t.records.Keys + keys
    && (forall k | k in t.records :: after.records[k] == t.records[k])
    && (forall v :: v in after.mapping <==> v in t.mapping || v in values)
    && (forall v | v in t.mapping :: after.mapping[v] == t.mapping[v])
    && (forall v | v in values && v !in t.mapping :: after.mapping[v] == SeedKey(lower, RepOf(clean, values, v)))
    && after.versions.Keys == t.versions.Keys + keys
    && (forall k | k in after.versions :: after.versions[k] == if k in t.versions then t.versions[k] else row)
  }

  /** The three inserts. */
  function InsertSeeds<V>(t: Tables<V>, records: map<string, string>, mapping: map<string, string>, row: V): Tables<V>
  {
    var versions := map k | k in records :: row;
    Tables(InsertAbsent(t.records, records), InsertAbsent(t.mapping, mapping), InsertAbsent(t.versions, versions))
  }

  method SeedTables<V(!new)>(lower: string -> string, clean: string -> string, values: seq<string>,
                             t: Tables<V>, row: V) returns (after: Tables<V>)
    ensures SeededInto(lower, clean, values, t, row, after)
    ensures KeysApart(lower, clean, values) ==> NewLabelled(clean, values, t, after)
  {
    hide *;
    ghost var clusters;
    var records, mapping;
    records, mapping, clusters := DeriveSeeds(lower, clean, values);
    after := InsertSeeds(t, records, mapping, row);
    SeedsInserted(lower, clean, values, t, records, mapping, row);
    if KeysApart(lower, clean, values) {
      SeedsLabelled(clean, values, t, records, mapping, row);
    }
  }

  /** A new record of a newly mapped value carries the label seen first. */
  ghost predicate NewLabelled<V(!new)>(clean: string -> string, values: seq<string>, t: Tables<V>, after: Tables<V>)
  {
    forall v | v in values && v !in t.mapping && v in after.mapping && after.mapping[v] !in t.records ::
      after.mapping[v] in after.records && after.records[after.mapping[v]] == RepOf(clean, values, v)
  }

  lemma SeedsInserted<V(!new)>(lower: string -> string, clean: string -> string, values: seq<string>, t: Tables<V>,
                               records: map<string, string>, mapping: map<string, string>, row: V)
    requires records.Keys == SeedKeysOf(lower, clean, values) && forall v :: v in mapping <==> v in values
    requires forall v | v in values :: mapping[v] == SeedKey(lower, RepOf(clean, values, v)) && mapping[v] in records
    ensures SeededInto(lower, clean, values, t, row, InsertSeeds(t, records, mapping, row))
  {
    hide SeedKeysOf, SeedKey, RepOf, InsertAbsent;
  }

  lemma SeedsLabelled<V(!new)>(clean: string -> string, values: seq<string>, t: Tables<V>,
                               records: map<string, string>, mapping: map<string, string>, row: V)
    requires forall v :: v in mapping <==> v in values
    requires forall v | v in values :: mapping[v] in records
    requires forall v | v in values :: records[mapping[v]] == RepOf(clean, values, v)
    ensures NewLabelled(clean, values, t, InsertSeeds(t, records, mapping, row))
  {
    hide RepOf, InsertAbsent;
  }

  lemma SeededKey(lower: string -> string, clean: string -> string, values: seq<string>, v: string)
    requires v in values
    ensures SeedKey(lower, RepOf(clean, values, v)) in SeedKeysOf(lower, clean, values)
  {
  }

  /** Mappings that resolved still do, and the new ones do; every value resolves when
      they did; and among the values that had no row, with distinct keys, two share a
      record exactly when they fold together. */
  lemma SeededResolves<V(!new)>(lower: string -> string, clean: string -> string, values: seq<string>,
                          t: Tables<V>, row: V, after: Tables<V>)
    requires SeededInto(lower, clean, values, t, row, after)
    ensures forall v | v in after.mapping && v !in t.mapping :: after.mapping[v] in after.records
    ensures (forall v | v in t.mapping :: t.mapping[v] in t.records) ==>
              forall v | v in after.mapping :: after.mapping[v] in after.records
    ensures KeysApart(lower, clean, values) ==>
              forall v, w | v in values && w in values && v !in t.mapping && w !in t.mapping ::
                after.mapping[v] == after.mapping[w] <==> NormalizeKey(clean, v) == NormalizeKey(clean, w)
  {
    hide SeedKeysOf, SeedKey, NormalizeKey;
    forall v | v in after.mapping && v !in t.mapping
      ensures after.mapping[v] in after.records
    {
      SeededKey(lower, clean, values, v);
    }
    forall v, w | v in values && w in values && v !in t.mapping && w !in t.mapping
      ensures KeysApart(lower, clean, values) ==>
                (after.mapping[v] == after.mapping[w] <==> NormalizeKey(clean, v) == NormalizeKey(clean, w))
    {
      if KeysApart(lower, clean, values) {
        KeysTellApart(lower, clean, values, v, w);
      }
    }
  }
}
