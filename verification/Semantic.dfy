/**
 The governance-term check on model output: a text is cut into maximal runs of [a-z0-9_] after
 case folding, the runs that are governance terms are kept, and an output may neither drop a
 term of the ticket nor introduce one that nothing allows.
 */
module Semantic {
  import opened Wrappers

  /** The governance vocabulary. */
  const VOCABULARY: seq<string> := [
    "approve", "approved", "chargeback", "compliance", "credit", "deny", "denied", "escalate",
    "fraud", "legal", "refund", "reject", "rejected", "replacement", "rma"
  ]

  const GOVERNANCE_TERMS: set<string> := set t | t in VOCABULARY

  /** The length of the longest term. */
  const LONGEST_TERM: nat := 11

  /** Case folding, one character at a time. */
  type Folding = char -> string

  predicate IsWordChar(c: char) {
    'a' <= c <= 'z' || '0' <= c <= '9' || c == '_'
  }

  /** The characters from `i` up to `j` are word characters. */
  predicate WordRange(s: string, i: int, j: int)
    requires 0 <= i <= j <= |s|
  {
    forall k :: i <= k < j ==> IsWordChar(s[k])
  }

  predicate IsCapital(c: char) { 'A' <= c <= 'Z' }

  function Lower(c: char): char
    requires IsCapital(c)
  {
    (c as int + 32) as char
  }

  /**
   What is assumed of case folding: it leaves word characters, space and newline alone, and it
   lowers capital letters.
   */
  ghost predicate FoldsPlainText(fold: Folding) {
    && (forall c :: IsWordChar(c) || c == ' ' || c == '\n' ==> fold(c) == [c])
    && (forall c :: IsCapital(c) ==> fold(c) == [Lower(c)])
  }

  function Fold(fold: Folding, s: string): string {
    if s == [] then [] else fold(s[0]) + Fold(fold, s[1..])
  }

  // ---------- Maximal runs ----------

  /** The length of the run of word characters at the beginning. */
  function RunLength(s: string): (n: nat)
    ensures n <= |s| && WordRange(s, 0, n)
    ensures n < |s| ==> !IsWordChar(s[n])
  {
    if s == [] || !IsWordChar(s[0]) then 0 else 1 + RunLength(s[1..])
  }

  /** `findall` of the token pattern: the maximal runs, left to right. */
  function Tokens(s: string): seq<string>
    decreases |s|
  {
    if s == [] then []
    else if RunLength(s) == 0 then Tokens(s[1..])
    else [s[..RunLength(s)]] + Tokens(s[RunLength(s)..])
  }

  /** `s[i..j]` is a run of word characters that cannot be extended on either side. */
  predicate MaximalRun(s: string, i: int, j: int) {
    && 0 <= i < j <= |s| && WordRange(s, i, j)
    && (i > 0 ==> !IsWordChar(s[i - 1]))
    && (j < |s| ==> !IsWordChar(s[j]))
  }

  predicate RunAt(s: string, i: int, j: int, t: string) {
    MaximalRun(s, i, j) && s[i..j] == t
  }

  lemma RunStopsAt(s: string, n: nat)
    requires n <= |s| && WordRange(s, 0, n) && (n < |s| ==> !IsWordChar(s[n]))
    ensures RunLength(s) == n
  {
  }

  /** How much of the text the tokenizer takes off in one turn. */
  function FirstPiece(s: string): (n: nat)
    requires s != []
    ensures 1 <= n <= |s|
  {
    if RunLength(s) == 0 then 1 else RunLength(s)
  }

  /** A run of the rest is a run of the whole text. */
  lemma RunUp(s: string, i: int, j: int, t: string)
    requires s != [] && RunAt(s[FirstPiece(s)..], i, j, t)
    ensures RunAt(s, i + FirstPiece(s), j + FirstPiece(s), t)
  {
    var n := FirstPiece(s);
    var r := s[n..];
    assert forall k :: 0 <= k < |r| ==> r[k] == s[k + n];
    forall k | i + n <= k < j + n
      ensures IsWordChar(s[k])
    {
      assert r[k - n] == s[k];
    }
    assert s[i + n..j + n] == r[i..j];
  }

  /** A run of the whole text is its first run or a run of the rest. */
  lemma RunDown(s: string, i: int, j: int, t: string)
    requires s != [] && RunAt(s, i, j, t)
    ensures (RunLength(s) > 0 && t == s[..RunLength(s)])
      || RunAt(s[FirstPiece(s)..], i - FirstPiece(s), j - FirstPiece(s), t)
  {
    var n := FirstPiece(s);
    var r := s[n..];
    if i >= n {
      assert forall k :: 0 <= k < |r| ==> r[k] == s[k + n];
      assert r[i - n..j - n] == s[i..j];
    } else {
      assert IsWordChar(s[i]);
      assert i == 0;
      RunStopsAt(s, j);
    }
  }

  lemma FirstRun(s: string)
    requires RunLength(s) > 0
    ensures RunAt(s, 0, RunLength(s), s[..RunLength(s)])
  {
  }

  /** The tokens are exactly the maximal runs of the text. */
  lemma {:induction false} TokensAreMaximalRuns(s: string, t: string)
    ensures t in Tokens(s) <==> exists i, j :: RunAt(s, i, j, t)
    decreases |s|
  {
    if s != [] {
      var n := FirstPiece(s);
      TokensAreMaximalRuns(s[n..], t);
      if RunLength(s) > 0 {
        FirstRun(s);
      }
      if i, j :| RunAt(s[n..], i, j, t) {
        RunUp(s, i, j, t);
      }
      if i, j :| RunAt(s, i, j, t) {
        RunDown(s, i, j, t);
      }
    }
  }

  // ---------- Joining texts ----------

  /** A separator keeps the tokens of its two sides apart. */
  lemma {:induction false} TokensOfJoined(a: string, sep: char, b: string)
    requires !IsWordChar(sep)
    ensures Tokens(a + [sep] + b) == Tokens(a) + Tokens(b)
    decreases |a|
  {
    var s := a + [sep] + b;
    if a == [] {
      assert s[1..] == b && s[0] == sep;
      RunStopsAt(s, 0);
    } else {
      var n := RunLength(a);
      assert s[..n] == a[..n];
      RunStopsAt(s, n);
      var k := if n == 0 then 1 else n;
      assert s[k..] == a[k..] + [sep] + b;
      TokensOfJoined(a[k..], sep, b);
    }
  }

  lemma {:induction false} FoldJoins(fold: Folding, a: string, b: string)
    ensures Fold(fold, a + b) == Fold(fold, a) + Fold(fold, b)
  {
    if a == [] {
      assert a + b == b;
    } else {
      assert (a + b)[1..] == a[1..] + b;
      FoldJoins(fold, a[1..], b);
    }
  }

  /** The governance terms of a text. */
  function Terms(fold: Folding, text: string): set<string> {
    set t | t in Tokens(Fold(fold, text)) && t in GOVERNANCE_TERMS
  }

  /** The terms of a text are the vocabulary words that are maximal runs of the folded text. */
  lemma TermsExactly(fold: Folding, text: string, folded: string, t: string)
    requires folded == Fold(fold, text)
    ensures t in Terms(fold, text) <==> t in VOCABULARY && exists i, j :: RunAt(folded, i, j, t)
  {
    TokensAreMaximalRuns(folded, t);
    assert t in Terms(fold, text) <==> t in Tokens(folded) && t in GOVERNANCE_TERMS;
  }

  /** The texts differ in capital and small letters at most. */
  predicate SameLetters(a: string, b: string) {
    |a| == |b| && forall i :: 0 <= i < |a| ==> SameLetter(a[i], b[i])
  }

  predicate SameLetter(c: char, d: char) {
    c == d || (IsCapital(c) && d == Lower(c)) || (IsCapital(d) && c == Lower(d))
  }

  lemma {:induction false} FoldIgnoresCase(fold: Folding, a: string, b: string)
    requires FoldsPlainText(fold) && SameLetters(a, b)
    ensures Fold(fold, a) == Fold(fold, b)
  {
    if a != [] {
      assert SameLetter(a[0], b[0]);
      assert IsCapital(a[0]) ==> IsWordChar(Lower(a[0]));
      assert IsCapital(b[0]) ==> IsWordChar(Lower(b[0]));
      FoldIgnoresCase(fold, a[1..], b[1..]);
    }
  }

  /** Whether letters are capital does not matter: a term is named however it is written. */
  lemma TermsIgnoreCase(fold: Folding, a: string, b: string)
    requires FoldsPlainText(fold) && SameLetters(a, b)
    ensures Terms(fold, a) == Terms(fold, b)
  {
    FoldIgnoresCase(fold, a, b);
  }

  /** A term in capitals, for one. */
  lemma CapitalsAreNamed(fold: Folding)
    requires FoldsPlainText(fold)
    ensures Terms(fold, "RMA") == {"rma"}
  {
    TermsIgnoreCase(fold, "RMA", "rma");
    PlainFold(fold, "rma");
    OneWord("rma");
    assert VOCABULARY[14] == "rma";
  }

  /** Joining two texts by a newline unites their terms. */
  lemma TermsOfLines(fold: Folding, a: string, b: string)
    requires FoldsPlainText(fold)
    ensures Terms(fold, a + "\n" + b) == Terms(fold, a) + Terms(fold, b)
  {
    FoldSeparated(fold, a, '\n', b);
    TokensOfJoined(Fold(fold, a), '\n', Fold(fold, b));
  }

  lemma FoldSeparated(fold: Folding, a: string, sep: char, b: string)
    requires fold(sep) == [sep]
    ensures Fold(fold, a + [sep] + b) == Fold(fold, a) + [sep] + Fold(fold, b)
  {
    FoldJoins(fold, a + [sep], b);
    FoldJoins(fold, a, [sep]);
    assert Fold(fold, [sep]) == [sep] + Fold(fold, []);
  }

  lemma NoTermsInNothing(fold: Folding)
    ensures Terms(fold, "") == {}
  {
  }

  /** Two newlines do the same. */
  lemma TermsOfParagraphs(fold: Folding, a: string, b: string)
    requires FoldsPlainText(fold)
    ensures Terms(fold, a + "\n\n" + b) == Terms(fold, a) + Terms(fold, b)
  {
    assert a + "\n\n" + b == a + "\n" + ("" + "\n" + b);
    TermsOfLines(fold, a, "" + "\n" + b);
    TermsOfLines(fold, "", b);
    NoTermsInNothing(fold);
  }

  // ---------- The check ----------

  datatype SemanticResult = SemanticResult(
    canonicalTerms: set<string>, outputTerms: set<string>, missingTerms: set<string>,
    introducedTerms: set<string>, allowedTerms: set<string>)
  {
    predicate Valid() { missingTerms == {} && introducedTerms == {} }
  }

  function InspectGovernanceTerms(
    fold: Folding, canonicalText: string, outputText: string, allowedText: Option<string>, authorized: set<string>)
    : SemanticResult
  {
    var canonical := Terms(fold, canonicalText);
    var grounded := match allowedText { case None => canonical case Some(text) => Terms(fold, text) };
    var allowed := grounded + (authorized * GOVERNANCE_TERMS);
    var output := Terms(fold, outputText);
    SemanticResult(canonical, output, canonical - output, output - allowed, allowed)
  }

  /** Raises, here an error, exactly when the output drifts. */
  function ValidateGovernanceTerms(
    fold: Folding, canonicalText: string, outputText: string, allowedText: Option<string>, authorized: set<string>)
    : Result<SemanticResult, string>
  {
    var result := InspectGovernanceTerms(fold, canonicalText, outputText, allowedText, authorized);
    if !result.Valid() then Err("model output drifted governance-significant terms") else Ok(result)
  }

  const CHUNK_BEGIN: string := "BEGIN_UNTRUSTED_KNOWLEDGE_CHUNK"
  const CHUNK_END: string := "END_UNTRUSTED_KNOWLEDGE_CHUNK"

  /** One retrieved item as it is quoted in the context. */
  function ContextItem(payload: string): string {
    CHUNK_BEGIN + "\n" + payload + "\n" + CHUNK_END
  }

  function ContextText(payloads: seq<string>): string {
    if payloads == [] then ""
    else if |payloads| == 1 then ContextItem(payloads[0])
    else ContextItem(payloads[0]) + "\n\n" + ContextText(payloads[1..])
  }

  function TermsOfAll(fold: Folding, texts: seq<string>): set<string> {
    if texts == [] then {} else Terms(fold, texts[0]) + TermsOfAll(fold, texts[1..])
  }

  datatype DiagnosticOutput = DiagnosticOutput(summary: string, category: string, reasoning: string)

  function OutputText(o: DiagnosticOutput): string {
    o.summary + "\n" + o.category + "\n" + o.reasoning
  }

  /**
   The check of one parsed completion against the ticket and the retrieved context. The raising
   form comes first; a drift it raises is inspected again for its detail.
   */
  function EvaluateOutput(
    fold: Folding, ticket: string, context: string, o: DiagnosticOutput, authorized: set<string>): SemanticResult
  {
    var allowedText := Some(ticket + "\n\n" + context);
    match ValidateGovernanceTerms(fold, ticket, OutputText(o), allowedText, authorized)
    case Ok(result) => result
    case Err(_) => InspectGovernanceTerms(fold, ticket, OutputText(o), allowedText, authorized)
  }

  function OutputTerms(fold: Folding, o: DiagnosticOutput): set<string> {
    Terms(fold, o.summary) + Terms(fold, o.category) + Terms(fold, o.reasoning)
  }

  /** What an output may name: the terms of the ticket, of the citations, and the authorized ones. */
  function AllowedTerms(fold: Folding, ticket: string, context: string, authorized: set<string>): set<string> {
    Terms(fold, ticket) + Terms(fold, context) + authorized * GOVERNANCE_TERMS
  }

  /**
   The gate is exact: ticket terms kept, nothing named that is neither in the ticket nor in the context
   nor authorized; and its detail names the terms that are missing and those that are introduced.
   */
  lemma GateIsExact(fold: Folding, ticket: string, context: string, o: DiagnosticOutput, authorized: set<string>)
    requires FoldsPlainText(fold)
    ensures
      var r := EvaluateOutput(fold, ticket, context, o, authorized);
      var named := Terms(fold, o.summary) + Terms(fold, o.category) + Terms(fold, o.reasoning);
      var allowed := Terms(fold, ticket) + Terms(fold, context) + authorized * GOVERNANCE_TERMS;
      && named == OutputTerms(fold, o) && allowed == AllowedTerms(fold, ticket, context, authorized)
      && (r.Valid() <==> Terms(fold, ticket) <= named <= allowed)
      && r.missingTerms == Terms(fold, ticket) - named && r.introducedTerms == named - allowed
      && r.canonicalTerms == Terms(fold, ticket) && r.outputTerms == named && r.allowedTerms == allowed
  {
    TermsOfLines(fold, o.summary + "\n" + o.category, o.reasoning);
    TermsOfLines(fold, o.summary, o.category);
    TermsOfParagraphs(fold, ticket, context);
  }

  /** Without a text that grounds it, an output may name the terms of the canonical text and the authorized ones. */
  lemma UngroundedGateIsExact(fold: Folding, canonicalText: string, outputText: string, authorized: set<string>)
    ensures ValidateGovernanceTerms(fold, canonicalText, outputText, None, authorized).Ok? <==>
      && Terms(fold, canonicalText) <= Terms(fold, outputText)
      && Terms(fold, outputText) <= Terms(fold, canonicalText) + authorized * GOVERNANCE_TERMS
  {
  }

  // ---------- The context ----------

  predicate IsMarker(s: string) { forall i :: 0 <= i < |s| ==> IsCapital(s[i]) || s[i] == '_' }

  lemma {:induction false} FoldedMarker(fold: Folding, s: string)
    requires FoldsPlainText(fold) && IsMarker(s)
    ensures |Fold(fold, s)| == |s| && WordRange(Fold(fold, s), 0, |s|)
  {
    if s != [] {
      FoldedMarker(fold, s[1..]);
    }
  }

  lemma TermsAreShort(t: string)
    requires t in GOVERNANCE_TERMS
    ensures |t| <= LONGEST_TERM
  {
  }

  /** A long marker in capitals is one token and not a term. */
  lemma MarkerHasNoTerms(fold: Folding, s: string)
    requires FoldsPlainText(fold) && IsMarker(s) && |s| > LONGEST_TERM
    ensures Terms(fold, s) == {}
  {
    var f := Fold(fold, s);
    FoldedMarker(fold, s);
    RunStopsAt(f, |f|);
    assert f[..|f|] == f && f[|f|..] == [];
    assert Tokens(f) == [f];
    if f in GOVERNANCE_TERMS {
      TermsAreShort(f);
      assert false;
    }
  }

  lemma QuotedTerms(fold: Folding, begin: string, payload: string, end: string)
    requires FoldsPlainText(fold)
    requires IsMarker(begin) && IsMarker(end) && |begin| > LONGEST_TERM && |end| > LONGEST_TERM
    ensures Terms(fold, begin + "\n" + payload + "\n" + end) == Terms(fold, payload)
  {
    TermsOfLines(fold, begin + "\n" + payload, end);
    TermsOfLines(fold, begin, payload);
    MarkerHasNoTerms(fold, begin);
    MarkerHasNoTerms(fold, end);
  }

  lemma ChunkMarkers()
    ensures IsMarker(CHUNK_BEGIN) && IsMarker(CHUNK_END)
    ensures |CHUNK_BEGIN| > LONGEST_TERM && |CHUNK_END| > LONGEST_TERM
  {
  }

  /** Quoting an item adds no terms. */
  lemma ContextItemTerms(fold: Folding, payload: string)
    requires FoldsPlainText(fold)
    ensures Terms(fold, ContextItem(payload)) == Terms(fold, payload)
  {
    ChunkMarkers();
    QuotedTerms(fold, CHUNK_BEGIN, payload, CHUNK_END);
  }

  /** The context has the terms of the retrieved items and no others. */
  lemma {:induction false} ContextTerms(fold: Folding, payloads: seq<string>)
    requires FoldsPlainText(fold)
    ensures Terms(fold, ContextText(payloads)) == TermsOfAll(fold, payloads)
  {
    if payloads == [] {
      NoTermsInNothing(fold);
    } else {
      ContextItemTerms(fold, payloads[0]);
      ContextTerms(fold, payloads[1..]);
      if |payloads| > 1 {
        TermsOfParagraphs(fold, ContextItem(payloads[0]), ContextText(payloads[1..]));
      }
    }
  }

  // ---------- The gate can always be passed ----------

  /** The terms of `s` among `words`, in their order. */
  function Keep(words: seq<string>, s: set<string>): (r: seq<string>)
    ensures |r| <= |words|
    ensures forall t :: t in r <==> t in words && t in s
  {
    if words == [] then []
    else (if words[0] in s then [words[0]] else []) + Keep(words[1..], s)
  }

  /** "ok", followed by the words, separated by spaces. */
  function Sentence(words: seq<string>): string {
    if words == [] then "ok" else Sentence(words[..|words| - 1]) + " " + words[|words| - 1]
  }

  lemma {:induction false} PlainFold(fold: Folding, s: string)
    requires FoldsPlainText(fold) && forall i :: 0 <= i < |s| ==> IsWordChar(s[i]) || s[i] == ' '
    ensures Fold(fold, s) == s
  {
    if s != [] {
      PlainFold(fold, s[1..]);
    }
  }

  predicate ShortWord(t: string) {
    t != "" && WordRange(t, 0, |t|) && |t| <= LONGEST_TERM
  }

  lemma TermsAreShortWords(t: string)
    requires t in GOVERNANCE_TERMS
    ensures ShortWord(t)
  {
  }

  lemma OneWord(t: string)
    requires t != "" && WordRange(t, 0, |t|)
    ensures Tokens(t) == [t]
  {
    RunStopsAt(t, |t|);
    assert t[..|t|] == t && t[|t|..] == [];
  }

  lemma {:induction false} SentenceTokens(words: seq<string>)
    requires forall i :: 0 <= i < |words| ==> ShortWord(words[i])
    ensures Tokens(Sentence(words)) == ["ok"] + words
  {
    if words == [] {
      OneWord("ok");
    } else {
      var front := words[..|words| - 1];
      var last := words[|words| - 1];
      SentenceTokens(front);
      OneWord(last);
      TokensOfJoined(Sentence(front), ' ', last);
      assert words == front + [last];
    }
  }

  lemma {:induction false} SentenceShape(words: seq<string>)
    requires forall i :: 0 <= i < |words| ==> ShortWord(words[i])
    ensures 1 <= |Sentence(words)| <= 2 + (LONGEST_TERM + 1) * |words|
    ensures Sentence(words)[0] != ' ' && Sentence(words)[|Sentence(words)| - 1] != ' '
    ensures forall i :: 0 <= i < |Sentence(words)| ==> IsWordChar(Sentence(words)[i]) || Sentence(words)[i] == ' '
  {
    if words != [] {
      SentenceShape(words[..|words| - 1]);
    }
  }

  lemma OkIsNoTerm()
    ensures "ok" !in GOVERNANCE_TERMS
  {
    assert forall t :: t in VOCABULARY ==> |t| > 2;
  }

  /** The vocabulary words of a set of terms: at most 15, all short words, and nothing else. */
  lemma VocabularyWords(terms: set<string>) returns (words: seq<string>)
    requires terms <= GOVERNANCE_TERMS
    ensures |words| <= 15
    ensures forall t :: t in words <==> t in terms
    ensures forall i :: 0 <= i < |words| ==> ShortWord(words[i])
  {
    words := Keep(VOCABULARY, terms);
    forall i | 0 <= i < |words|
      ensures ShortWord(words[i])
    {
      TermsAreShortWords(words[i]);
    }
  }

  /** A summary that names exactly the given terms. */
  lemma SummaryFor(fold: Folding, terms: set<string>) returns (summary: string)
    requires FoldsPlainText(fold) && terms <= GOVERNANCE_TERMS
    ensures Terms(fold, summary) == terms
    ensures 1 <= |summary| <= 1500 && summary[0] != ' ' && summary[|summary| - 1] != ' '
  {
    var words := VocabularyWords(terms);
    summary := Sentence(words);
    SentenceTokens(words);
    SentenceShape(words);
    PlainFold(fold, summary);
    OkIsNoTerm();
    var tokens := ["ok"] + words;
    assert forall t :: t in tokens <==> t == "ok" || t in words;
  }

  /** An output can be valid with this category. */
  ghost predicate Achievable(
    fold: Folding, ticket: string, context: string, category: string, authorized: set<string>)
  {
    exists summary, reasoning ::
      EvaluateOutput(fold, ticket, context, DiagnosticOutput(summary, category, reasoning), authorized).Valid()
  }

  /**
   The rewrite that a drifted output is asked for can be given exactly when the category names
   only allowed terms; then a summary of at most 1500 characters that names the terms of the
   ticket passes, with an empty reasoning.
   */
  lemma RewriteIsAchievable(fold: Folding, ticket: string, context: string, category: string, authorized: set<string>)
    requires FoldsPlainText(fold)
    ensures Achievable(fold, ticket, context, category, authorized) <==>
      Terms(fold, category) <= AllowedTerms(fold, ticket, context, authorized)
    ensures Terms(fold, category) <= AllowedTerms(fold, ticket, context, authorized) ==>
      exists summary ::
        1 <= |summary| <= 1500 && Terms(fold, summary) == Terms(fold, ticket) &&
        EvaluateOutput(fold, ticket, context, DiagnosticOutput(summary, category, ""), authorized).Valid()
  {
    if summary, reasoning :|
      EvaluateOutput(fold, ticket, context, DiagnosticOutput(summary, category, reasoning), authorized).Valid() {
      GateIsExact(fold, ticket, context, DiagnosticOutput(summary, category, reasoning), authorized);
    }
    var summary := SummaryFor(fold, Terms(fold, ticket));
    GateIsExact(fold, ticket, context, DiagnosticOutput(summary, category, ""), authorized);
    NoTermsInNothing(fold);
  }

  /** The category that an answer can always choose. */
  const UNCLASSIFIED: string := "unclassified"

  /** It is one word, and longer than every term. */
  lemma UnclassifiedNamesNoTerm(fold: Folding)
    requires FoldsPlainText(fold)
    ensures Terms(fold, UNCLASSIFIED) == {}
  {
    WordNamesNoTerm(fold, UNCLASSIFIED);
  }

  lemma WordNamesNoTerm(fold: Folding, word: string)
    requires FoldsPlainText(fold) && |word| > LONGEST_TERM && WordRange(word, 0, |word|)
    ensures Terms(fold, word) == {}
  {
    PlainFold(fold, word);
    OneWord(word);
    if word in GOVERNANCE_TERMS {
      TermsAreShortWords(word);
      assert false;
    }
  }

  /** So the gate shuts out no ticket: an answer that chooses this category can always pass. */
  lemma GateCanAlwaysBePassed(fold: Folding, ticket: string, context: string, authorized: set<string>)
    requires FoldsPlainText(fold)
    ensures Achievable(fold, ticket, context, UNCLASSIFIED, authorized)
  {
    UnclassifiedNamesNoTerm(fold);
    RewriteIsAchievable(fold, ticket, context, UNCLASSIFIED, authorized);
  }
}
