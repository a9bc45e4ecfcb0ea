/**
 * The name normaliser `clean_name` (app.py:96-107): trim, delete every character
 * outside `[\w\s一-龥/()]`, lower-case, strip each listed stop-word prefix
 * at most once in list order, collapse whitespace runs to one blank and trim again.
 */
module Names {
  import opened Wrappers
  import opened Sequences

  /** Python's whitespace (`str.strip()` and the regex class `\s` on `str`). */
  predicate IsSpace(c: char) {
    c == ' ' || ('\t' <= c <= '\r') || ('\U{1c}' <= c <= '\U{1f}') || c == '\U{85}' || c == '\U{a0}'
    || c == '\U{1680}' || ('\U{2000}' <= c <= '\U{200a}') || c == '\U{2028}' || c == '\U{2029}'
    || c == '\U{202f}' || c == '\U{205f}' || c == '\U{3000}'
  }

  /** The CJK range named explicitly by the regex. */
  predicate IsHan(c: char) { '\U{4e00}' <= c <= '\U{9fa5}' }

  /** `\w`, approximated by ASCII letters, digits, underscore and the CJK range. */
  predicate IsWord(c: char) {
    ('a' <= c <= 'z') || ('A' <= c <= 'Z') || ('0' <= c <= '9') || c == '_' || IsHan(c)
  }

  /** The characters the deletion regex keeps. */
  predicate IsKept(c: char) {
    IsWord(c) || IsSpace(c) || c == '/' || c == '(' || c == ')'
  }

  predicate IsUpper(c: char) { 'A' <= c <= 'Z' }

  /** `str.lower()`, on ASCII letters. */
  function Lower(c: char): (d: char)
    ensures !IsUpper(d)
    ensures IsSpace(d) <==> IsSpace(c)
    ensures d == '-' <==> c == '-'
    ensures IsKept(c) ==> IsKept(d)
  {
    if IsUpper(c) then (c as int + 32) as char else c
  }

  function LowerAll(s: string): (r: string)
    ensures |r| == |s|
    ensures forall i :: 0 <= i < |s| ==> r[i] == Lower(s[i])
  {
    if s == [] then [] else [Lower(s[0])] + LowerAll(s[1..])
  }

  /** `re.sub(r'[^\w\s一-龥/()]', '', s)` */
  function RemoveDisallowed(s: string): (r: string)
    ensures |r| <= |s|
    ensures forall i :: 0 <= i < |r| ==> IsKept(r[i])
  {
    if s == [] then []
    else if IsKept(s[0]) then [s[0]] + RemoveDisallowed(s[1..])
    else RemoveDisallowed(s[1..])
  }

  /**
   * Deletion keeps exactly the allowed characters: every one of them, each as
   * often as it occurs, in their original order.
   */
  lemma {:induction false} DeletionKeepsAllowed(s: string)
    ensures Subsequence(RemoveDisallowed(s), s)
    ensures forall c :: multiset(RemoveDisallowed(s))[c] == if IsKept(c) then multiset(s)[c] else 0
  {
    if s != [] {
      assert s == [s[0]] + s[1..];
      var rest := RemoveDisallowed(s[1..]);
      DeletionKeepsAllowed(s[1..]);
      if IsKept(s[0]) {
        KeepHead(s[0], rest, s[1..]);
      } else {
        DropHead(s[0], rest, s[1..]);
      }
    }
  }

  /** Drops leading whitespace. */
  function TrimLeft(s: string): (r: string)
    ensures |r| <= |s| && r == s[|s| - |r|..]
    ensures r == [] || !IsSpace(r[0])
    ensures s != [] && IsSpace(s[0]) ==> |r| < |s|
    ensures forall i :: 0 <= i < |s| - |r| ==> IsSpace(s[i])
  {
    if s != [] && IsSpace(s[0]) then TrimLeft(s[1..]) else s
  }

  /** Drops trailing whitespace. */
  function TrimRight(s: string): (r: string)
    ensures |r| <= |s| && r == s[..|r|]
    ensures r == [] || !IsSpace(r[|r| - 1])
    ensures forall i :: |r| <= i < |s| ==> IsSpace(s[i])
  {
    if s != [] && IsSpace(s[|s| - 1]) then TrimRight(s[..|s| - 1]) else s
  }

  /** `str.strip()` */
  function Strip(s: string): string {
    TrimRight(TrimLeft(s))
  }

  /** `re.sub(r'\s+', ' ', s)`: every maximal whitespace run becomes one blank. */
  function CollapseSpaces(s: string): (r: string)
    ensures r == [] <==> s == []
    ensures r != [] ==> (IsSpace(r[0]) <==> IsSpace(s[0]))
    ensures SingleSpaced(r)
    decreases |s|
  {
    if s == [] then []
    else if IsSpace(s[0]) then [' '] + CollapseSpaces(TrimLeft(s))
    else [s[0]] + CollapseSpaces(s[1..])
  }

  /**
   * A whitespace run never reaches across a non-blank character: collapsing
   * splits at every such character, which survives unchanged.
   */
  lemma {:induction false} CollapseAtWord(a: string, x: char, b: string)
    requires !IsSpace(x)
    ensures CollapseSpaces(a + [x] + b) == CollapseSpaces(a) + [x] + CollapseSpaces(b)
    decreases |a|
  {
    if a == [] {
      assert a + [x] + b == [x] + b;
      assert ([x] + b)[1..] == b;
    } else if IsSpace(a[0]) {
      TrimLeftAppend(a, x, b);
      CollapseAtWord(TrimLeft(a), x, b);
      CollapseStepSpace(a, x, b);
    } else {
      CollapseAtWord(a[1..], x, b);
      CollapseStepWord(a, x, b);
    }
  }

  lemma CollapseStepSpace(a: string, x: char, b: string)
    requires a != [] && IsSpace(a[0])
    requires TrimLeft(a + [x] + b) == TrimLeft(a) + [x] + b
    requires CollapseSpaces(TrimLeft(a) + [x] + b) == CollapseSpaces(TrimLeft(a)) + [x] + CollapseSpaces(b)
    ensures CollapseSpaces(a + [x] + b) == CollapseSpaces(a) + [x] + CollapseSpaces(b)
  {
    var s := a + [x] + b;
    var ct, cb := CollapseSpaces(TrimLeft(a)), CollapseSpaces(b);
    assert CollapseSpaces(s) == [' '] + CollapseSpaces(TrimLeft(s)) by { SplitAround(a, x, b); UnfoldAtSpace(s); }
    assert CollapseSpaces(a) == [' '] + ct by { UnfoldAtSpace(a); }
    Regroup([' '], ct, x, cb);
  }

  lemma CollapseStepWord(a: string, x: char, b: string)
    requires a != [] && !IsSpace(a[0])
    requires CollapseSpaces(a[1..] + [x] + b) == CollapseSpaces(a[1..]) + [x] + CollapseSpaces(b)
    ensures CollapseSpaces(a + [x] + b) == CollapseSpaces(a) + [x] + CollapseSpaces(b)
  {
    var s := a + [x] + b;
    SplitAround(a, x, b);
    UnfoldAtWord(s);
    UnfoldAtWord(a);
  }

  lemma Regroup(h: string, c: string, x: char, d: string)
    ensures h + (c + [x] + d) == (h + c) + [x] + d
  {
  }

  lemma SplitAround(a: string, x: char, b: string)
    requires a != []
    ensures (a + [x] + b)[0] == a[0] && (a + [x] + b)[1..] == a[1..] + [x] + b
  {
  }

  lemma UnfoldAtSpace(s: string)
    requires s != [] && IsSpace(s[0])
    ensures CollapseSpaces(s) == [' '] + CollapseSpaces(TrimLeft(s))
  {
  }

  lemma UnfoldAtWord(s: string)
    requires s != [] && !IsSpace(s[0])
    ensures CollapseSpaces(s) == [s[0]] + CollapseSpaces(s[1..])
  {
  }

  lemma {:induction false} TrimLeftAppend(a: string, x: char, b: string)
    requires !IsSpace(x)
    ensures TrimLeft(a + [x] + b) == TrimLeft(a) + [x] + b
    decreases |a|
  {
    if a == [] {
      assert a + [x] + b == [x] + b;
    } else if IsSpace(a[0]) {
      assert (a + [x] + b)[1..] == a[1..] + [x] + b;
      TrimLeftAppend(a[1..], x, b);
    } else {
      assert (a + [x] + b)[0] == a[0];
    }
  }

  /** A whole run of whitespace becomes a single blank. */
  lemma CollapseRun(s: string)
    requires s != [] && forall i :: 0 <= i < |s| ==> IsSpace(s[i])
    ensures CollapseSpaces(s) == " "
  {
    assert TrimLeft(s) == [];
  }

  function StartsWith(s: string, prefix: string): bool {
    |prefix| <= |s| && s[..|prefix|] == prefix
  }

  /** Plain substring test (`needle in hay`). */
  predicate Contains(hay: string, needle: string)
    decreases |hay|
  {
    StartsWith(hay, needle) || (hay != [] && Contains(hay[1..], needle))
  }

  lemma {:induction false} ContainsAt(hay: string, needle: string, i: nat)
    requires i + |needle| <= |hay| && hay[i..i + |needle|] == needle
    ensures Contains(hay, needle)
    decreases i
  {
    if i > 0 {
      assert hay[1..][i - 1..i - 1 + |needle|] == needle;
      ContainsAt(hay[1..], needle, i - 1);
    }
  }

  /** The stop-word list of app.py:103, in its order. */
  const StopWords: seq<string> := ["临时_", "临时-", "新建_", "新建-"]

  /** The loop of app.py:104-106: each word in turn is removed once if it is a prefix. */
  function StripPrefixes(s: string, words: seq<string>): (r: string)
    decreases |words|
  {
    if words == [] then s
    else StripPrefixes(if StartsWith(s, words[0]) then s[|words[0]|..] else s, words[1..])
  }

  /** Every whitespace character is a plain blank and no two are adjacent. */
  ghost predicate SingleSpaced(s: string) {
    && (forall i :: 0 <= i < |s| && IsSpace(s[i]) ==> s[i] == ' ')
    && (forall i :: 0 <= i < |s| - 1 ==> !(IsSpace(s[i]) && IsSpace(s[i + 1])))
  }

  /** The shape of every key clean_name returns. */
  ghost predicate WellFormedKey(s: string) {
    && SingleSpaced(s)
    && (s == [] || (!IsSpace(s[0]) && !IsSpace(s[|s| - 1])))
  }

  /** What clean_name does to a present value, before the final collapse and trim. */
  function Normalized(s: string): string {
    StripPrefixes(LowerAll(RemoveDisallowed(Strip(s))), StopWords)
  }

  /**
   * `clean_name(name)`: `None` stands for a missing or NaN cell. The result is a
   * well-formed key made only of kept, lower-case characters, and never holds '-'.
   */
  function CleanName(raw: Option<string>): (r: string)
    ensures raw.None? ==> r == ""
    ensures WellFormedKey(r)
    ensures forall i :: 0 <= i < |r| ==> IsKept(r[i]) && !IsUpper(r[i]) && r[i] != '-'
  {
    match raw
    case None => ""
    case Some(s) =>
      var t := Normalized(s);
      NormalizedChars(s);
      CollapseKeepsChars(t);
      StripOfSingleSpaced(CollapseSpaces(t));
      Strip(CollapseSpaces(t))
  }

  // ---------------------------------------------------------------------------
  // Lemmas about the pieces

  /** The characters surviving deletion and lower-casing are kept, lower-case, and not '-'. */
  ghost predicate CleanChars(s: string) {
    forall i :: 0 <= i < |s| ==> IsKept(s[i]) && !IsUpper(s[i]) && s[i] != '-'
  }

  lemma {:induction false} StripPrefixesIsSuffix(s: string, words: seq<string>)
    ensures |StripPrefixes(s, words)| <= |s|
    ensures StripPrefixes(s, words) == s[|s| - |StripPrefixes(s, words)|..]
    ensures |s| - |StripPrefixes(s, words)| <= TotalLength(words)
    decreases |words|
  {
    if words != [] {
      var t := if StartsWith(s, words[0]) then s[|words[0]|..] else s;
      StripPrefixesIsSuffix(t, words[1..]);
      assert t == s[|s| - |t|..];
    }
  }

  function TotalLength(words: seq<string>): nat {
    if words == [] then 0 else |words[0]| + TotalLength(words[1..])
  }

  lemma NormalizedChars(s: string)
    ensures CleanChars(Normalized(s))
  {
    var r := RemoveDisallowed(Strip(s));
    var u := LowerAll(r);
    forall i | 0 <= i < |u| ensures IsKept(u[i]) && !IsUpper(u[i]) && u[i] != '-' {
      assert u[i] == Lower(r[i]) && IsKept(r[i]);
    }
    StrippedKeepsChars(u, StopWords);
  }

  lemma StrippedKeepsChars(u: string, words: seq<string>)
    requires CleanChars(u)
    ensures CleanChars(StripPrefixes(u, words))
  {
    StripPrefixesIsSuffix(u, words);
    var n := StripPrefixes(u, words);
    var k := |u| - |n|;
    forall i | 0 <= i < |n| ensures IsKept(n[i]) && !IsUpper(n[i]) && n[i] != '-' {
      assert n[i] == u[k + i];
    }
  }

  lemma {:induction false} CollapseKeepsChars(s: string)
    requires CleanChars(s)
    ensures CleanChars(CollapseSpaces(s))
    decreases |s|
  {
    if s != [] {
      if IsSpace(s[0]) {
        CollapseKeepsChars(TrimLeft(s));
      } else {
        CollapseKeepsChars(s[1..]);
      }
    }
  }

  lemma StripOfSingleSpaced(s: string)
    requires SingleSpaced(s)
    ensures WellFormedKey(Strip(s))
    ensures forall i :: 0 <= i < |Strip(s)| ==> Strip(s)[i] in s
  {
    var l := TrimLeft(s);
    var r := TrimRight(l);
    var a := |s| - |l|;
    forall i | 0 <= i < |r| ensures r[i] == s[a + i] {
      assert r[i] == l[i] && l[i] == s[a + i];
    }
    forall i | 0 <= i < |r| && IsSpace(r[i]) ensures r[i] == ' ' {
      assert r[i] == s[a + i];
    }
    forall i | 0 <= i < |r| - 1 ensures !(IsSpace(r[i]) && IsSpace(r[i + 1])) {
      assert r[i] == s[a + i] && r[i + 1] == s[a + i + 1];
    }
    if r != [] {
      assert r[0] == l[0];
    }
    forall i | 0 <= i < |r| ensures r[i] in s {
      assert r[i] == s[a + i];
    }
  }

  // ---------------------------------------------------------------------------
  // What the source promises, and where it differs from what it seems to promise

  /** A missing value normalises to the empty key. */
  lemma MissingIsEmpty()
    ensures CleanName(None) == ""
  {
  }

  /** Deleting '-' (app.py:101) happens before the stop-word loop, so no text it
      sees contains '-', and the two '-' stop words can never fire. */
  lemma NoDashAfterDeletion(s: string)
    ensures '-' !in LowerAll(RemoveDisallowed(s))
  {
    var r := RemoveDisallowed(s);
    var u := LowerAll(r);
    assert forall i :: 0 <= i < |u| ==> u[i] == Lower(r[i]) && IsKept(r[i]);
  }

  lemma DashWordNeverStrips(s: string, w: string)
    requires '-' !in s && '-' in w
    ensures StripPrefixes(s, [w]) == s
  {
  }

  /** Only the two '_' stop words can take effect. */
  lemma DashStopWordsAreDead(s: string)
    ensures Normalized(s) == StripPrefixes(LowerAll(RemoveDisallowed(Strip(s))), ["临时_", "新建_"])
  {
    var u := LowerAll(RemoveDisallowed(Strip(s)));
    NoDashAfterDeletion(Strip(s));
    var u1 := StripHead(u, "临时_", ["临时-", "新建_", "新建-"]);
    assert "临时-"[2] == '-';
    SkipDashWord(u1, "临时-", ["新建_", "新建-"]);
    var u3 := StripHead(u1, "新建_", ["新建-"]);
    assert "新建-"[2] == '-';
    SkipDashWord(u3, "新建-", []);
    assert StopWords == ["临时_"] + ["临时-", "新建_", "新建-"];
    var v1 := StripHead(u, "临时_", ["新建_"]);
    var v3 := StripHead(v1, "新建_", []);
  }

  /** Trying one stop word: the text afterwards, which holds no '-' if the text before held none. */
  lemma StripHead(s: string, w: string, rest: seq<string>) returns (t: string)
    ensures t == (if StartsWith(s, w) then s[|w|..] else s)
    ensures StripPrefixes(s, [w] + rest) == StripPrefixes(t, rest)
    ensures '-' !in s ==> '-' !in t
  {
    t := if StartsWith(s, w) then s[|w|..] else s;
    assert ([w] + rest)[0] == w && ([w] + rest)[1..] == rest;
    if StartsWith(s, w) {
      assert forall i :: 0 <= i < |t| ==> t[i] == s[|w| + i];
    }
  }

  lemma SkipDashWord(s: string, w: string, rest: seq<string>)
    requires '-' !in s && '-' in w
    ensures StripPrefixes(s, [w] + rest) == StripPrefixes(s, rest)
  {
    var t := StripHead(s, w, rest);
    DashWordNeverStrips(s, w);
  }

  /** Text made only of kept, non-blank, lower-case characters. */
  ghost predicate Plain(s: string) {
    forall i :: 0 <= i < |s| ==> IsKept(s[i]) && !IsSpace(s[i]) && !IsUpper(s[i])
  }

  /** Plain, checked character by character (so that literals evaluate). */
  predicate PlainText(s: string) {
    s == [] || (IsKept(s[0]) && !IsSpace(s[0]) && !IsUpper(s[0]) && PlainText(s[1..]))
  }

  lemma {:induction false} PlainTextIsPlain(s: string)
    requires PlainText(s)
    ensures Plain(s)
  {
    if s != [] {
      PlainTextIsPlain(s[1..]);
      assert forall i :: 1 <= i < |s| ==> s[i] == s[1..][i - 1];
    }
  }

  lemma {:induction false} PlainSurvivesDeletion(s: string)
    requires Plain(s)
    ensures RemoveDisallowed(s) == s
  {
    if s != [] {
      PlainSurvivesDeletion(s[1..]);
    }
  }

  lemma {:induction false} PlainHasNothingToCollapse(s: string)
    requires Plain(s)
    ensures CollapseSpaces(s) == s
  {
    if s != [] {
      PlainHasNothingToCollapse(s[1..]);
    }
  }

  /** On plain text clean_name does nothing but strip the stop-word prefixes. */
  lemma CleanOfPlain(s: string)
    requires Plain(s)
    ensures CleanName(Some(s)) == StripPrefixes(s, StopWords)
  {
    PlainIsStripped(s);
    PlainSurvivesDeletion(s);
    PlainIsLower(s);
    assert Normalized(s) == StripPrefixes(s, StopWords);
    assert CleanName(Some(s)) == Strip(CollapseSpaces(Normalized(s)));
    var t := StripPrefixes(s, StopWords);
    StripPrefixesIsSuffix(s, StopWords);
    PlainSuffix(s, |s| - |t|);
    PlainHasNothingToCollapse(t);
    PlainIsStripped(t);
  }

  lemma NotPrefixAt(s: string, prefix: string, k: nat)
    requires k < |prefix| && (|prefix| > |s| || (k < |s| && s[k] != prefix[k]))
    ensures !StartsWith(s, prefix)
  {
    if |prefix| <= |s| {
      assert s[..|prefix|][k] != prefix[k];
    }
  }

  lemma PlainSuffix(s: string, k: nat)
    requires Plain(s) && k <= |s|
    ensures Plain(s[k..])
  {
    assert forall i :: 0 <= i < |s| - k ==> s[k..][i] == s[k + i];
  }

  lemma PlainIsStripped(s: string)
    requires Plain(s)
    ensures Strip(s) == s
  {
    assert TrimLeft(s) == s;
    assert TrimRight(s) == s;
  }

  lemma PlainIsLower(s: string)
    requires Plain(s)
    ensures LowerAll(s) == s
  {
    assert forall i :: 0 <= i < |s| ==> LowerAll(s)[i] == s[i];
  }

  lemma NoStopWordPrefix(s: string)
    requires s != [] && 'a' <= s[0] <= 'z'
    ensures StripPrefixes(s, StopWords) == s
  {
    NotPrefixAt(s, "临时_", 0);
    NotPrefixAt(s, "临时-", 0);
    NotPrefixAt(s, "新建_", 0);
    NotPrefixAt(s, "新建-", 0);
  }

  lemma DoubledPrefixStripsOne()
    ensures StripPrefixes("临时_临时_x", StopWords) == "临时_x"
  {
    var s, t := "临时_临时_x", "临时_x";
    assert StartsWith(s, "临时_") && s[3..] == t;
    NotPrefixAt(t, "临时-", 2);
    NotPrefixAt(t, "新建_", 0);
    NotPrefixAt(t, "新建-", 0);
  }

  lemma SinglePrefixStrips()
    ensures StripPrefixes("临时_x", StopWords) == "x"
  {
    var t := "临时_x";
    assert StartsWith(t, "临时_") && t[3..] == "x";
    NotPrefixAt("x", "临时-", 0);
    NotPrefixAt("x", "新建_", 0);
    NotPrefixAt("x", "新建-", 0);
  }

  /** Each stop word is stripped at most once: a doubled prefix leaves one copy. */
  lemma StripsOnce()
    ensures CleanName(Some("临时_临时_x")) == "临时_x"
  {
    PlainTextIsPlain("临时_临时_x");
    CleanOfPlain("临时_临时_x");
    DoubledPrefixStripsOne();
  }

  /** Hence clean_name is not idempotent. */
  lemma NotIdempotent()
    ensures CleanName(Some(CleanName(Some("临时_临时_x")))) != CleanName(Some("临时_临时_x"))
  {
    StripsOnce();
    SinglePrefixCleans();
  }

  lemma SinglePrefixCleans()
    ensures CleanName(Some("临时_x")) == "x"
  {
    PlainTextIsPlain("临时_x");
    CleanOfPlain("临时_x");
    SinglePrefixStrips();
  }

  /** Once deletion and lower-casing leave plain text, only the prefixes remain to strip. */
  lemma CleanViaPlain(s: string, t: string)
    requires TrimLeft(s) == s && TrimRight(s) == s
    requires Plain(t) && LowerAll(RemoveDisallowed(s)) == t
    ensures CleanName(Some(s)) == StripPrefixes(t, StopWords)
  {
    assert Normalized(s) == StripPrefixes(t, StopWords);
    var u := StripPrefixes(t, StopWords);
    StripPrefixesIsSuffix(t, StopWords);
    PlainSuffix(t, |t| - |u|);
    PlainHasNothingToCollapse(u);
    PlainIsStripped(u);
  }

  lemma DashDeleted()
    ensures RemoveDisallowed("临时-x") == "临时x"
  {
    var s := "临时-x";
    assert !IsKept(s[2]);
    assert RemoveDisallowed(s[3..]) == "x";
    assert RemoveDisallowed(s[2..]) == "x";
    assert RemoveDisallowed(s[1..]) == "时x";
  }

  /** A '-' prefix is not stripped: only the dash itself is deleted. */
  lemma DashPrefixKept()
    ensures CleanName(Some("临时-x")) == "临时x"
  {
    DashDeleted();
    DashlessPlain();
    CleanViaPlain("临时-x", "临时x");
    NoPrefixOfDashless();
  }

  lemma DashlessPlain()
    ensures TrimLeft("临时-x") == "临时-x" && TrimRight("临时-x") == "临时-x"
    ensures Plain("临时x") && LowerAll("临时x") == "临时x"
  {
    PlainTextIsPlain("临时x");
    PlainIsLower("临时x");
  }

  lemma NoPrefixOfDashless()
    ensures StripPrefixes("临时x", StopWords) == "临时x"
  {
    var t := "临时x";
    NotPrefixAt(t, "临时_", 2);
    NotPrefixAt(t, "临时-", 2);
    NotPrefixAt(t, "新建_", 0);
    NotPrefixAt(t, "新建-", 0);
  }

  lemma UnderscoreKept()
    ensures LowerAll(RemoveDisallowed("Proj_A")) == "proj_a"
  {
    var s := "Proj_A";
    assert forall i :: 0 <= i < |s| ==> IsKept(s[i]);
    assert RemoveDisallowed(s[5..]) == s[5..];
    assert RemoveDisallowed(s[4..]) == s[4..];
    assert RemoveDisallowed(s[3..]) == s[3..];
    assert RemoveDisallowed(s[2..]) == s[2..];
    assert RemoveDisallowed(s[1..]) == s[1..];
    assert RemoveDisallowed(s) == s;
  }

  lemma DashInsideDeleted()
    ensures LowerAll(RemoveDisallowed("proj-a")) == "proja"
  {
    var d := "proj-a";
    assert RemoveDisallowed(d[5..]) == "a";
    assert RemoveDisallowed(d[4..]) == "a";
    assert RemoveDisallowed(d[3..]) == "ja";
    assert RemoveDisallowed(d[2..]) == "oja";
    assert RemoveDisallowed(d[1..]) == "roja";
    assert RemoveDisallowed(d) == "proja";
    PlainTextIsPlain("proja");
    PlainIsLower("proja");
  }

  lemma UnderscoreKey()
    ensures CleanName(Some("Proj_A")) == "proj_a"
  {
    assert TrimLeft("Proj_A") == "Proj_A" && TrimRight("Proj_A") == "Proj_A";
    UnderscoreKept();
    PlainTextIsPlain("proj_a");
    CleanViaPlain("Proj_A", "proj_a");
    NoStopWordPrefix("proj_a");
  }

  lemma DashKey()
    ensures CleanName(Some("proj-a")) == "proja"
  {
    assert TrimLeft("proj-a") == "proj-a" && TrimRight("proj-a") == "proj-a";
    DashInsideDeleted();
    PlainTextIsPlain("proja");
    CleanViaPlain("proj-a", "proja");
    NoStopWordPrefix("proja");
  }

  /** "Proj_A" and "proj-a" do not normalise to the same key: '_' is kept, '-' is deleted. */
  lemma UnderscoreAndDashDiffer()
    ensures CleanName(Some("Proj_A")) != CleanName(Some("proj-a"))
  {
    UnderscoreKey();
    DashKey();
    assert "proj_a"[4] != "proja"[4];
  }
}
