/** Detection: the named-entity hits of every sentence, shifted to offsets of
    the whole text and filtered by the allowed labels, followed by the hits of
    the e-mail, URL and phone patterns. The entity recogniser and the three
    pattern finders are given as functions. */
module Detect {
  import opened Spans
  import opened Labels

  /** One entity the recogniser reports, with character offsets relative to
      the sentence it was given and its raw label `labelText` (`label_`). */
  datatype Entity = Entity(startChar: int, endChar: int, labelText: string)

  /** One match of a pattern, with offsets into the searched text. */
  datatype Match = Match(start: int, end: int)

  /** The recogniser (`self.nlp(sent).ents`) and the three `finditer` searches. */
  datatype Detectors = Detectors(
    nlp: string -> seq<Entity>,
    email: string -> seq<Match>,
    url: string -> seq<Match>,
    phone: string -> seq<Match>)

  predicate EntityFits(e: Entity, n: int)
  {
    0 <= e.startChar <= e.endChar <= n
  }

  predicate EntitiesFit(ents: seq<Entity>, n: int)
  {
    forall k :: 0 <= k < |ents| ==> EntityFits(ents[k], n)
  }

  predicate MatchesFit(ms: seq<Match>, n: int)
  {
    forall k :: 0 <= k < |ms| ==> 0 <= ms[k].start <= ms[k].end <= n
  }

  /** What the recogniser and the finders promise: every offset they report
      lies inside the string they were given, start before end. */
  ghost predicate DetectorsSound(d: Detectors)
  {
    && (forall sent: string :: EntitiesFit(d.nlp(sent), |sent|))
    && (forall t: string :: MatchesFit(d.email(t), |t|))
    && (forall t: string :: MatchesFit(d.url(t), |t|))
    && (forall t: string :: MatchesFit(d.phone(t), |t|))
  }

  /** The three finders' matches on text lie inside it. */
  predicate FindersFit(d: Detectors, text: string)
  {
    MatchesFit(d.email(text), |text|) && MatchesFit(d.url(text), |text|) && MatchesFit(d.phone(text), |text|)
  }

  /** The recogniser's entities on each sentence lie inside that sentence. */
  predicate NlpFits(d: Detectors, text: string, sents: seq<(nat, nat)>)
    requires SentencesFit(sents, |text|)
  {
    forall t :: 0 <= t < |sents| ==> SentenceNlpFits(d, text, sents, t)
  }

  predicate SentenceNlpFits(d: Detectors, text: string, sents: seq<(nat, nat)>, t: nat)
    requires t < |sents| && SentenceFits(sents, t, |text|)
  {
    EntitiesFit(d.nlp(text[sents[t].0..sents[t].1]), sents[t].1 - sents[t].0)
  }

  /** The sentences of a prefix fit as the whole list does. */
  lemma {:induction false} FitsPrefix(d: Detectors, text: string, sents: seq<(nat, nat)>, m: nat)
    requires SentencesFit(sents, |text|) && NlpFits(d, text, sents) && m <= |sents|
    ensures SentencesFit(sents[..m], |text|) && NlpFits(d, text, sents[..m])
  {
    forall t | 0 <= t < m ensures SentenceFits(sents[..m], t, |text|) {
      assert sents[..m][t] == sents[t] && SentenceFits(sents, t, |text|);
    }
    forall t | 0 <= t < m ensures SentenceNlpFits(d, text, sents[..m], t) {
      assert sents[..m][t] == sents[t] && SentenceNlpFits(d, text, sents, t);
    }
  }

  /** Sound detectors fit every text and every sentence of it. */
  lemma {:induction false} SoundFits(d: Detectors, text: string, sents: seq<(nat, nat)>)
    requires DetectorsSound(d) && SentencesFit(sents, |text|)
    ensures FindersFit(d, text) && NlpFits(d, text, sents)
  {
    forall t | 0 <= t < |sents| ensures SentenceNlpFits(d, text, sents, t) {
      assert SentenceFits(sents, t, |text|);
      var sent := text[sents[t].0..sents[t].1];
      assert EntitiesFit(d.nlp(sent), |sent|);
    }
  }

  /** `targets or [...]`: an absent or empty list of targets means the six
      default labels. */
  function TargetsOrDefault(targets: Option<seq<string>>): seq<string>
  {
    if targets.None? || targets.value == [] then DefaultTargets else targets.value
  }

  /** `{t.upper() for t in allow}`: without targets exactly the six default
      labels; otherwise exactly the targets, upper-cased, so a label no target
      names is not allowed. Every member is its own
      upper-cased form, so a mapped label is found however the caller spelled
      the target. */
  function AllowSet(targets: Option<seq<string>>): (r: set<string>)
    ensures (targets.None? || targets.value == []) ==> forall x :: x in r <==> x in DefaultTargets
    ensures targets.Some? && targets.value != [] ==> forall t <- targets.value :: Upper(t) in r
    ensures targets.Some? && targets.value != [] ==> forall x <- r :: exists t <- targets.value :: Upper(t) == x
    ensures forall x <- r :: Upper(x) == x
  {
    var r := set t <- TargetsOrDefault(targets) :: Upper(t);
    assert forall x <- r :: Upper(x) == x by {
      forall x | x in r ensures Upper(x) == x {
        var t :| t in TargetsOrDefault(targets) && Upper(t) == x;
        UpperIdempotent(t);
      }
    }
    DefaultsUpperCase();
    UpperFixedList(DefaultTargets);
    r
  }

  /** Upper-casing a list of upper-case labels leaves the same labels. */
  lemma {:induction false} UpperFixedList(ts: seq<string>)
    requires forall k :: 0 <= k < |ts| ==> Upper(ts[k]) == ts[k]
    ensures forall x :: x in (set t <- ts :: Upper(t)) <==> x in ts
  {
    forall x ensures x in (set t <- ts :: Upper(t)) <==> x in ts {
      if x in ts {
        var k :| 0 <= k < |ts| && ts[k] == x;
        assert Upper(ts[k]) == x;
      }
    }
  }

  /** The six default labels are written in upper case already. */
  lemma {:induction false} DefaultsUpperCase()
    ensures forall k :: 0 <= k < |DefaultTargets| ==> Upper(DefaultTargets[k]) == DefaultTargets[k]
  {
    forall k | 0 <= k < |DefaultTargets| ensures Upper(DefaultTargets[k]) == DefaultTargets[k] {
      UpperLiteral(DefaultTargets[k]);
    }
  }

  lemma {:induction false} UpperLiteral(s: string)
    requires s in DefaultTargets
    ensures Upper(s) == s
  {
    forall k | 0 <= k < |s| ensures !('a' <= s[k] <= 'z') {
    }
    UpperFixesUpperCase(s);
  }

  /** The sentences lie inside a text of length n. */
  predicate SentencesFit(sents: seq<(nat, nat)>, n: int)
  {
    forall t :: 0 <= t < |sents| ==> SentenceFits(sents, t, n)
  }

  predicate SentenceFits(sents: seq<(nat, nat)>, t: nat, n: int)
    requires t < |sents|
  {
    sents[t].0 <= sents[t].1 <= n
  }

  /** The span an entity of the sentence starting at a becomes: offsets
      shifted by a, the mapped label, and the text it covers. */
  function Hit(text: string, a: int, e: Entity, kind: string): (r: Span)
    requires 0 <= a + e.startChar <= a + e.endChar <= |text|
    ensures InBounds(r, |text|) && r.text == text[r.start..r.end]
  {
    Span(a + e.startChar, a + e.endChar, kind, text[a + e.startChar..a + e.endChar])
  }

  /** The entity is one `mask` keeps: its mapped label is allowed. */
  predicate Kept(e: Entity, allow: set<string>)
  {
    MapLabel(e.labelText).Some? && MapLabel(e.labelText).value in allow
  }

  /** The kept hits of one sentence [a, b), in the recogniser's order. */
  function SentenceHits(text: string, a: nat, b: nat, ents: seq<Entity>, allow: set<string>): seq<Span>
    requires a <= b <= |text|
    requires EntitiesFit(ents, b - a)
  {
    if ents == [] then []
    else
      var e := ents[|ents| - 1];
      var before := SentenceHits(text, a, b, ents[..|ents| - 1], allow);
      if Kept(e, allow) then before + [Hit(text, a, e, MapLabel(e.labelText).value)] else before
  }

  /** One more entity adds its hit, when kept, to the hits of those before it. */
  lemma {:induction false} SentenceHitsStep(text: string, a: nat, b: nat, ents: seq<Entity>, allow: set<string>, k: nat)
    requires a <= b <= |text| && k < |ents|
    requires EntitiesFit(ents, b - a)
    ensures SentenceHits(text, a, b, ents[..k + 1], allow) ==
            SentenceHits(text, a, b, ents[..k], allow) +
            (if Kept(ents[k], allow) then [Hit(text, a, ents[k], MapLabel(ents[k].labelText).value)] else [])
  {
    assert ents[..k + 1][..k] == ents[..k];
  }

  /** The kept hits of all sentences, sentence by sentence. */
  function NerSpans(text: string, sents: seq<(nat, nat)>, allow: set<string>, d: Detectors): seq<Span>
    requires SentencesFit(sents, |text|) && NlpFits(d, text, sents)
  {
    if sents == [] then []
    else
      assert SentenceFits(sents, |sents| - 1, |text|) && SentenceNlpFits(d, text, sents, |sents| - 1);
      FitsPrefix(d, text, sents, |sents| - 1);
      var (a, b) := sents[|sents| - 1];
      NerSpans(text, sents[..|sents| - 1], allow, d) + SentenceHits(text, a, b, d.nlp(text[a..b]), allow)
  }

  /** A span is among a sentence's hits exactly when some kept entity of the
      sentence, shifted, gives it. */
  lemma {:induction false} SentenceHitsMembers(text: string, a: nat, b: nat, ents: seq<Entity>, allow: set<string>, s: Span)
    requires a <= b <= |text|
    requires EntitiesFit(ents, b - a)
    ensures s in SentenceHits(text, a, b, ents, allow) <==>
            exists e <- ents :: Kept(e, allow) && s == Hit(text, a, e, MapLabel(e.labelText).value)
  {
    if ents != [] {
      var init := ents[..|ents| - 1];
      assert ents == init + [ents[|ents| - 1]];
      SentenceHitsMembers(text, a, b, init, allow, s);
      if s in SentenceHits(text, a, b, ents, allow) && s !in SentenceHits(text, a, b, init, allow) {
        assert s == Hit(text, a, ents[|ents| - 1], MapLabel(ents[|ents| - 1].labelText).value);
      }
    }
  }

  /** s is among the hits of sentence t. */
  predicate SentenceHit(text: string, sents: seq<(nat, nat)>, allow: set<string>, d: Detectors, s: Span, t: nat)
    requires SentencesFit(sents, |text|) && NlpFits(d, text, sents) && t < |sents|
  {
    assert SentenceFits(sents, t, |text|) && SentenceNlpFits(d, text, sents, t);
    s in SentenceHits(text, sents[t].0, sents[t].1, d.nlp(text[sents[t].0..sents[t].1]), allow)
  }

  /** Dropping the last sentence leaves the hits of the others as they were. */
  lemma {:induction false} SentenceHitInit(text: string, sents: seq<(nat, nat)>, allow: set<string>, d: Detectors, s: Span, t: nat)
    requires SentencesFit(sents, |text|) && NlpFits(d, text, sents) && t < |sents| - 1
    ensures SentencesFit(sents[..|sents| - 1], |text|) && NlpFits(d, text, sents[..|sents| - 1])
    ensures SentenceHit(text, sents[..|sents| - 1], allow, d, s, t) <==> SentenceHit(text, sents, allow, d, s, t)
  {
    FitsPrefix(d, text, sents, |sents| - 1);
    assert sents[..|sents| - 1][t] == sents[t];
  }

  /** A span is detected by the recogniser exactly when it is a hit of one of
      the sentences. */
  lemma {:induction false} NerSpansMembers(text: string, sents: seq<(nat, nat)>, allow: set<string>, d: Detectors, s: Span)
    requires SentencesFit(sents, |text|) && NlpFits(d, text, sents)
    ensures s in NerSpans(text, sents, allow, d) <==> exists t :: 0 <= t < |sents| && SentenceHit(text, sents, allow, d, s, t)
  {
    if sents != [] {
      var last := |sents| - 1;
      var init := sents[..last];
      FitsPrefix(d, text, sents, last);
      NerSpansMembers(text, init, allow, d, s);
      if s in NerSpans(text, sents, allow, d) {
        if s in NerSpans(text, init, allow, d) {
          var t :| 0 <= t < |init| && SentenceHit(text, init, allow, d, s, t);
          SentenceHitInit(text, sents, allow, d, s, t);
        } else {
          assert SentenceHit(text, sents, allow, d, s, last);
        }
      } else {
        assert !SentenceHit(text, sents, allow, d, s, last);
        forall t | 0 <= t < last ensures !SentenceHit(text, sents, allow, d, s, t) {
          SentenceHitInit(text, sents, allow, d, s, t);
        }
      }
    }
  }

  /** Every detected span lies in the text, covers the text it records, and
      carries an allowed label the alias table produced. */
  lemma {:induction false} NerSpansSound(text: string, sents: seq<(nat, nat)>, allow: set<string>, d: Detectors, s: Span)
    requires SentencesFit(sents, |text|) && NlpFits(d, text, sents)
    requires s in NerSpans(text, sents, allow, d)
    ensures InBounds(s, |text|) && s.text == text[s.start..s.end]
    ensures s.kind in allow && s.kind in DefaultTargets
  {
    NerSpansMembers(text, sents, allow, d, s);
    var t :| 0 <= t < |sents| && SentenceHit(text, sents, allow, d, s, t);
    assert SentenceFits(sents, t, |text|) && SentenceNlpFits(d, text, sents, t);
    var (a, b) := sents[t];
    SentenceHitsMembers(text, a, b, d.nlp(text[a..b]), allow, s);
    var e :| e in d.nlp(text[a..b]) && Kept(e, allow) && s == Hit(text, a, e, MapLabel(e.labelText).value);
    MapLabelRange(e.labelText);
  }

  /** The spans one finder contributes under a label, in match order. */
  function Tagged(text: string, ms: seq<Match>, kind: string): (r: seq<Span>)
    requires MatchesFit(ms, |text|)
    ensures |r| == |ms|
    ensures forall k :: 0 <= k < |ms| ==> r[k] == Span(ms[k].start, ms[k].end, kind, text[ms[k].start..ms[k].end])
  {
    if ms == [] then []
    else
      var m := ms[|ms| - 1];
      Tagged(text, ms[..|ms| - 1], kind) + [Span(m.start, m.end, kind, text[m.start..m.end])]
  }

  /** The finder's hits under a label when that label is allowed, else none. */
  function Found(text: string, ms: seq<Match>, kind: string, allow: set<string>): seq<Span>
    requires MatchesFit(ms, |text|)
  {
    if kind in allow then Tagged(text, ms, kind) else []
  }

  /** What `_regex_pii` returns: e-mail, then URL, then phone hits. */
  function RegexSpans(text: string, allow: set<string>, d: Detectors): seq<Span>
    requires FindersFit(d, text)
  {
    Found(text, d.email(text), Email, allow) + Found(text, d.url(text), Url, allow) + Found(text, d.phone(text), Phone, allow)
  }

  /** The pattern hits' position in the list of results. */
  function Rank(kind: string): int
  {
    if kind == Email then 0 else if kind == Url then 1 else 2
  }

  /** The three pattern labels are told apart by their rank. */
  lemma {:induction false} RankValues()
    ensures Rank(Email) == 0 && Rank(Url) == 1 && Rank(Phone) == 2
  {
    assert Url[0] != Email[0];
    assert Phone[0] != Email[0] && Phone[0] != Url[0];
  }

  /** A span one finder contributed under an allowed label. */
  predicate FoundHit(s: Span, text: string, kind: string, allow: set<string>)
  {
    InBounds(s, |text|) && s.text == text[s.start..s.end] && s.kind == kind && kind in allow
  }

  lemma {:induction false} FoundSound(text: string, ms: seq<Match>, kind: string, allow: set<string>)
    requires MatchesFit(ms, |text|)
    ensures forall i :: 0 <= i < |Found(text, ms, kind, allow)| ==> FoundHit(Found(text, ms, kind, allow)[i], text, kind, allow)
  {
  }

  /** Every pattern hit lies in the text and covers its text; its label is one
      of the three pattern labels and is allowed; e-mail hits come before URL
      hits, which come before phone hits. */
  lemma {:induction false} RegexSpansSound(text: string, allow: set<string>, d: Detectors)
    requires FindersFit(d, text)
    ensures forall i :: 0 <= i < |RegexSpans(text, allow, d)| ==>
      var s := RegexSpans(text, allow, d)[i];
      InBounds(s, |text|) && s.text == text[s.start..s.end] && s.kind in allow &&
      (s.kind == Email || s.kind == Url || s.kind == Phone)
    ensures forall i, j :: 0 <= i < j < |RegexSpans(text, allow, d)| ==>
      Rank(RegexSpans(text, allow, d)[i].kind) <= Rank(RegexSpans(text, allow, d)[j].kind)
  {
    var e, u, p := Found(text, d.email(text), Email, allow), Found(text, d.url(text), Url, allow), Found(text, d.phone(text), Phone, allow);
    var r := RegexSpans(text, allow, d);
    FoundSound(text, d.email(text), Email, allow);
    FoundSound(text, d.url(text), Url, allow);
    FoundSound(text, d.phone(text), Phone, allow);
    RankValues();
    assert r == e + u + p;
    forall i | 0 <= i < |r| ensures Rank(r[i].kind) == (if i < |e| then 0 else if i < |e| + |u| then 1 else 2)
      ensures InBounds(r[i], |text|) && r[i].text == text[r[i].start..r[i].end] && r[i].kind in allow
      ensures r[i].kind == Email || r[i].kind == Url || r[i].kind == Phone
    {
      if i < |e| {
        assert r[i] == e[i] && FoundHit(e[i], text, Email, allow);
      } else if i < |e| + |u| {
        assert r[i] == u[i - |e|] && FoundHit(u[i - |e|], text, Url, allow);
      } else {
        assert r[i] == p[i - |e| - |u|] && FoundHit(p[i - |e| - |u|], text, Phone, allow);
      }
    }
  }

  /** Every match of an allowed pattern is reported. */
  lemma {:induction false} RegexSpansComplete(text: string, allow: set<string>, d: Detectors, m: Match, kind: string)
    requires FindersFit(d, text)
    requires kind in allow
    requires (kind == Email && m in d.email(text)) || (kind == Url && m in d.url(text)) || (kind == Phone && m in d.phone(text))
    ensures Span(m.start, m.end, kind, text[m.start..m.end]) in RegexSpans(text, allow, d)
  {
    var ms := if kind == Email then d.email(text) else if kind == Url then d.url(text) else d.phone(text);
    var k :| 0 <= k < |ms| && ms[k] == m;
    assert Tagged(text, ms, kind)[k] == Span(m.start, m.end, kind, text[m.start..m.end]);
  }

  /** One `finditer` loop of `_regex_pii`: append a span per match, labelled
      kind, in match order. */
  method AppendMatches(spans: seq<Span>, text: string, ms: seq<Match>, kind: string) returns (out: seq<Span>)
    requires MatchesFit(ms, |text|)
    ensures out == spans + Tagged(text, ms, kind)
  {
    out := spans;
    for k := 0 to |ms|
      invariant out == spans + Tagged(text, ms[..k], kind)
    {
      assert ms[..k + 1][..k] == ms[..k];
      out := out + [Span(ms[k].start, ms[k].end, kind, text[ms[k].start..ms[k].end])];
    }
    assert ms[..|ms|] == ms;
  }

  /** `_regex_pii`: the e-mail, URL and phone loops, each run only when its
      label is allowed. */
  method RegexPii(text: string, allow: set<string>, d: Detectors) returns (spans: seq<Span>)
    requires FindersFit(d, text)
    ensures spans == RegexSpans(text, allow, d)
  {
    ghost var e, u, p := Found(text, d.email(text), Email, allow), Found(text, d.url(text), Url, allow),
                         Found(text, d.phone(text), Phone, allow);
    spans := [];
    if Email in allow {
      spans := AppendMatches(spans, text, d.email(text), Email);
    }
    assert spans == e;
    if Url in allow {
      spans := AppendMatches(spans, text, d.url(text), Url);
    }
    assert spans == e + u;
    if Phone in allow {
      spans := AppendMatches(spans, text, d.phone(text), Phone);
    }
    assert spans == e + u + p;
  }

  /** The entity loop of one sentence [a, b): keep the entities whose mapped
      label is allowed, shifted by the sentence's start. */
  method SentenceDetect(text: string, a: nat, b: nat, ents: seq<Entity>, allow: set<string>) returns (hits: seq<Span>)
    requires a <= b <= |text|
    requires EntitiesFit(ents, b - a)
    ensures hits == SentenceHits(text, a, b, ents, allow)
  {
    hits := [];
    for k := 0 to |ents|
      invariant hits == SentenceHits(text, a, b, ents[..k], allow)
    {
      var e := ents[k];
      SentenceHitsStep(text, a, b, ents, allow, k);
      var mapped := MapLabel(e.labelText);
      if mapped.Some? && mapped.value in allow {
        var start := a + e.startChar;
        var end := a + e.endChar;
        assert Span(start, end, mapped.value, text[start..end]) == Hit(text, a, e, mapped.value);
        hits := hits + [Span(start, end, mapped.value, text[start..end])];
      }
    }
    assert ents[..|ents|] == ents;
  }

  /** The sentence loop of `mask`: run the recogniser on every sentence and
      collect the kept entities of each. */
  method DetectNer(text: string, sents: seq<(nat, nat)>, allow: set<string>, d: Detectors) returns (detected: seq<Span>)
    requires SentencesFit(sents, |text|) && NlpFits(d, text, sents)
    ensures detected == NerSpans(text, sents, allow, d)
  {
    detected := [];
    for t := 0 to |sents|
      invariant SentencesFit(sents[..t], |text|) && NlpFits(d, text, sents[..t])
      invariant detected == NerSpans(text, sents[..t], allow, d)
    {
      assert SentenceFits(sents, t, |text|) && SentenceNlpFits(d, text, sents, t);
      FitsPrefix(d, text, sents, t + 1);
      var (a, b) := sents[t];
      var hits := SentenceDetect(text, a, b, d.nlp(text[a..b]), allow);
      detected := detected + hits;
      assert sents[..t + 1][..t] == sents[..t];
    }
    assert sents[..|sents|] == sents;
  }
}
