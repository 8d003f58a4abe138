/** The training-data builder: locating the given name and the surname inside
    the full name, and keeping the spans the tokenizer can realise. */
module DatasetBuilder {
  import opened Text
  import opened Labels

  /** A labelled character span `[start, end)` over the full name: the
      `(start, end, label)` triple of the spaCy training format, with the
      label in `tag`. */
  datatype Entity = Entity(start: int, end: int, tag: Label)

  /** One CSV row: the full name and the given name and surname it holds. */
  datatype NameRecord = NameRecord(fullText: string, given: string, surname: string)

  /** A training document: the full name and the entity spans attached to it. */
  datatype Example = Example(text: string, spans: seq<Entity>)

  /** Whether the tokenizer's `char_span(start, end)` on the document built
      from the text yields a span; the tokenizer itself is not modelled. */
  type CharSpan = (string, int, int) -> bool

  /** `needle` occurs in `texto` at index `i`, up to case. */
  predicate MatchesUpToCase(texto: string, needle: string, i: int) {
    0 <= i && i + |needle| <= |texto| && Lower(texto[i..i + |needle|]) == Lower(needle)
  }

  /** `i` is the first index at which `needle` occurs in `texto` up to case. */
  ghost predicate FirstMatchUpToCase(texto: string, needle: string, i: int) {
    MatchesUpToCase(texto, needle, i) &&
    forall j :: 0 <= j < i ==> !MatchesUpToCase(texto, needle, j)
  }

  /** The training code looks `needle` up at all and finds it. */
  ghost predicate Findable(texto: string, needle: string) {
    needle != "" && exists i :: MatchesUpToCase(texto, needle, i)
  }

  /** Searching the lower-cased text for the lower-cased needle is matching
      up to case in the original text. */
  lemma MatchesLowerIff(texto: string, needle: string)
    ensures forall i :: MatchesAt(Lower(texto), Lower(needle), i) <==> MatchesUpToCase(texto, needle, i)
  {
    forall i | 0 <= i && i + |needle| <= |texto|
      ensures MatchesAt(Lower(texto), Lower(needle), i) <==> MatchesUpToCase(texto, needle, i)
    {
      LowerSlice(texto, i, i + |needle|);
    }
  }

  /** A GIVEN_NAME span, if any, comes first and a SURNAME span, if any,
      comes last: every span but the last is a GIVEN_NAME span and every span
      but the first a SURNAME span, so there are at most two. */
  predicate GivenBeforeSurname(s: seq<Entity>) {
    && (forall i :: 0 <= i < |s| - 1 ==> s[i].tag == GIVEN_NAME)
    && (forall j :: 0 < j < |s| ==> s[j].tag == SURNAME)
  }

  /** An ordered span list holds at most one span of each label. */
  lemma OrderedAtMostTwo(s: seq<Entity>)
    requires GivenBeforeSurname(s)
    ensures |s| <= 2
  {
    LabelsDistinct();
    if |s| > 0 {
      var x := s[if |s| >= 3 then 1 else 0];
      assert |s| >= 3 ==> x.tag == GIVEN_NAME && x.tag == SURNAME;
    }
  }

  /** One `if` block of `criar_entidades`: no entity for an empty needle or
      one that does not occur, else the entity at its first occurrence. */
  function Locate(texto: string, needle: string, tag: Label): (r: seq<Entity>)
    ensures |r| <= 1
    ensures r != [] <==> Findable(texto, needle)
    ensures r != [] ==>
      var e := r[0];
      && e.tag == tag
      && e.end == e.start + |needle|
      && 0 <= e.start < e.end <= |texto|
      && FirstMatchUpToCase(texto, needle, e.start)
  {
    if needle == "" then []
    else
      MatchesLowerIff(texto, needle);
      var idx := Find(Lower(texto), Lower(needle));
      if idx == -1 then [] else [Entity(idx, idx + |needle|, tag)]
  }

  /** `criar_entidades`: the GIVEN_NAME entity for `nome`, then the SURNAME
      entity for `sobrenome`, each present exactly when its name is found,
      each at the first case-insensitive occurrence. */
  function BuildEntities(texto: string, nome: string, sobrenome: string): (r: seq<Entity>)
    ensures |r| <= 2
    ensures forall i :: 0 <= i < |r| ==> r[i].tag == GIVEN_NAME || r[i].tag == SURNAME
    ensures GivenBeforeSurname(r)
    ensures Findable(texto, nome) <==> r != [] && r[0].tag == GIVEN_NAME
    ensures Findable(texto, sobrenome) <==> r != [] && r[|r| - 1].tag == SURNAME
    ensures r != [] && r[0].tag == GIVEN_NAME ==>
      var e := r[0];
      e.end == e.start + |nome| && 0 <= e.start < e.end <= |texto| && FirstMatchUpToCase(texto, nome, e.start)
    ensures r != [] && r[|r| - 1].tag == SURNAME ==>
      var e := r[|r| - 1];
      e.end == e.start + |sobrenome| && 0 <= e.start < e.end <= |texto| && FirstMatchUpToCase(texto, sobrenome, e.start)
  {
    LabelsDistinct();
    Locate(texto, nome, GIVEN_NAME) + Locate(texto, sobrenome, SURNAME)
  }

  /** The two names are located independently and nothing checks the spans
      for overlap: the same name given twice yields two coinciding spans. */
  lemma CoincidingSpans(texto: string, name: string)
    requires Findable(texto, name)
    ensures var r := BuildEntities(texto, name, name);
      |r| == 2 && r[0].start == r[1].start && r[0].end == r[1].end
  {
  }

  /** Neither name found: the example gets no spans, and nothing fails. */
  lemma NothingFound(texto: string, nome: string, sobrenome: string)
    requires !Findable(texto, nome) && !Findable(texto, sobrenome)
    ensures BuildEntities(texto, nome, sobrenome) == []
  {
  }

  /** The spans the filter loop keeps: those for which `char_span` succeeds,
      so never more spans than entities and never a span `char_span` refuses. */
  function Kept(texto: string, ents: seq<Entity>, charSpan: CharSpan): (r: seq<Entity>)
    ensures |r| <= |ents|
    ensures forall i :: 0 <= i < |r| ==> charSpan(texto, r[i].start, r[i].end)
    decreases |ents|
  {
    if ents == [] then []
    else
      var head := if charSpan(texto, ents[0].start, ents[0].end) then [ents[0]] else [];
      head + Kept(texto, ents[1..], charSpan)
  }

  /** Filtering a concatenation filters each part. */
  lemma {:induction false} KeptAppend(texto: string, a: seq<Entity>, b: seq<Entity>, charSpan: CharSpan)
    ensures Kept(texto, a + b, charSpan) == Kept(texto, a, charSpan) + Kept(texto, b, charSpan)
    decreases |a|
  {
    if a == [] {
      assert a + b == b;
    } else {
      assert (a + b)[0] == a[0];
      assert (a + b)[1..] == a[1..] + b;
      KeptAppend(texto, a[1..], b, charSpan);
      var head := if charSpan(texto, a[0].start, a[0].end) then [a[0]] else [];
      assert Kept(texto, a + b, charSpan) == head + Kept(texto, a[1..] + b, charSpan);
      assert Kept(texto, a, charSpan) == head + Kept(texto, a[1..], charSpan);
    }
  }

  /** A span is kept exactly when it is one of the entities and `char_span`
      succeeds on it. */
  lemma {:induction false} KeptMembers(texto: string, ents: seq<Entity>, charSpan: CharSpan)
    ensures forall e :: e in Kept(texto, ents, charSpan) <==> e in ents && charSpan(texto, e.start, e.end)
    decreases |ents|
  {
    if ents != [] {
      KeptMembers(texto, ents[1..], charSpan);
      assert ents == [ents[0]] + ents[1..];
    }
  }

  /** `a` is `b` with some elements left out, in `b`'s order. */
  ghost predicate IsSubsequence<T>(a: seq<T>, b: seq<T>)
    decreases |b|
  {
    if b == [] then a == []
    else (a != [] && a[0] == b[0] && IsSubsequence(a[1..], b[1..])) || IsSubsequence(a, b[1..])
  }

  /** The kept spans are a subsequence of the entities: filtering never
      reorders. */
  lemma {:induction false} KeptIsSubsequence(texto: string, ents: seq<Entity>, charSpan: CharSpan)
    ensures IsSubsequence(Kept(texto, ents, charSpan), ents)
    decreases |ents|
  {
    if ents != [] {
      KeptIsSubsequence(texto, ents[1..], charSpan);
      var rest := Kept(texto, ents[1..], charSpan);
      if charSpan(texto, ents[0].start, ents[0].end) {
        assert Kept(texto, ents, charSpan) == [ents[0]] + rest;
        assert ([ents[0]] + rest)[1..] == rest;
      } else {
        assert Kept(texto, ents, charSpan) == rest;
      }
    }
  }

  /** Filtering keeps the relative order of the entities, so the order
      between the two labels survives it. */
  lemma {:induction false} KeptKeepsLabelOrder(texto: string, ents: seq<Entity>, charSpan: CharSpan)
    requires GivenBeforeSurname(ents)
    ensures GivenBeforeSurname(Kept(texto, ents, charSpan))
    decreases |ents|
  {
    if ents != [] {
      var tail := ents[1..];
      assert GivenBeforeSurname(tail) by {
        forall i | 0 <= i < |tail| ensures tail[i] == ents[i + 1] { }
      }
      KeptKeepsLabelOrder(texto, tail, charSpan);
      KeptMembers(texto, tail, charSpan);
      var rest := Kept(texto, tail, charSpan);
      if charSpan(texto, ents[0].start, ents[0].end) {
        var r := [ents[0]] + rest;
        assert Kept(texto, ents, charSpan) == r;
        if |r| > 1 {
          assert ents[0] == r[0] && |tail| > 0;
        }
        forall j | 0 < j < |r| ensures r[j].tag == SURNAME {
          assert r[j] == rest[j - 1] && rest[j - 1] in rest;
          var k :| 0 <= k < |tail| && tail[k] == rest[j - 1];
          assert ents[k + 1] == r[j];
        }
        KeptIsSubsequence(texto, tail, charSpan);
        SubsequenceLength(rest, tail);
        OrderedAtMostTwo(ents);
        assert |r| <= 2;
      } else {
        assert Kept(texto, ents, charSpan) == rest;
      }
    }
  }

  /** The filter loop of `gerar_spacy_dataset`: walks the entities in order
      and appends each one `char_span` accepts. */
  method FilterAlignable(texto: string, ents: seq<Entity>, charSpan: CharSpan) returns (spans: seq<Entity>)
    ensures spans == Kept(texto, ents, charSpan)
  {
    spans := [];
    for i := 0 to |ents|
      invariant spans == Kept(texto, ents[..i], charSpan)
    {
      var e := ents[i];
      if charSpan(texto, e.start, e.end) {
        spans := spans + [e];
      }
      assert ents[..i + 1] == ents[..i] + [e];
      KeptAppend(texto, ents[..i], [e], charSpan);
    }
    assert ents[..|ents|] == ents;
  }

  /** The document one row becomes: its full name with the located spans
      the tokenizer can realise, at most two. */
  function ExampleOf(row: NameRecord, charSpan: CharSpan): (x: Example)
    ensures x.text == row.fullText
    ensures |x.spans| <= 2
    ensures forall i :: 0 <= i < |x.spans| ==>
      x.spans[i] in BuildEntities(row.fullText, row.given, row.surname) &&
      charSpan(row.fullText, x.spans[i].start, x.spans[i].end)
  {
    KeptMembers(row.fullText, BuildEntities(row.fullText, row.given, row.surname), charSpan);
    Example(row.fullText, Kept(row.fullText, BuildEntities(row.fullText, row.given, row.surname), charSpan))
  }

  /** What a row's document holds: its full name, and the located spans for
      which `char_span` succeeds, no others, in the order they were located:
      at most two, a GIVEN_NAME span before a SURNAME span. */
  lemma ExampleSpans(row: NameRecord, charSpan: CharSpan)
    ensures var x := ExampleOf(row, charSpan);
      var ents := BuildEntities(row.fullText, row.given, row.surname);
      && x.text == row.fullText
      && IsSubsequence(x.spans, ents)
      && |x.spans| <= 2
      && (forall e :: e in x.spans <==> e in ents && charSpan(row.fullText, e.start, e.end))
      && GivenBeforeSurname(x.spans)
  {
    var ents := BuildEntities(row.fullText, row.given, row.surname);
    KeptIsSubsequence(row.fullText, ents, charSpan);
    KeptMembers(row.fullText, ents, charSpan);
    KeptKeepsLabelOrder(row.fullText, ents, charSpan);
    SubsequenceLength(Kept(row.fullText, ents, charSpan), ents);
  }

  /** A subsequence is no longer than the sequence it is drawn from. */
  lemma {:induction false} SubsequenceLength<T>(a: seq<T>, b: seq<T>)
    requires IsSubsequence(a, b)
    ensures |a| <= |b|
    decreases |b|
  {
    if b != [] {
      if a != [] && a[0] == b[0] && IsSubsequence(a[1..], b[1..]) {
        SubsequenceLength(a[1..], b[1..]);
      } else {
        SubsequenceLength(a, b[1..]);
      }
    }
  }

  /** Two spans share at least one character. */
  predicate Overlap(a: Entity, b: Entity) {
    a.start < b.end && b.start < a.end
  }

  /** Two different positions of the list hold overlapping spans. This is
      when spaCy refuses `doc.ents = spans`, as a token may belong to one
      entity only; for spans `char_span` accepts, sharing a character is
      sharing a token. */
  predicate HasOverlap(spans: seq<Entity>) {
    exists i, j :: 0 <= i < j < |spans| && Overlap(spans[i], spans[j])
  }

  /** The same name given twice, with a tokenizer that accepts both spans,
      makes a row whose spans overlap. */
  lemma SameNameConflicts(texto: string, name: string)
    requires Findable(texto, name)
    ensures HasOverlap(ExampleOf(NameRecord(texto, name, name), (t: string, a: int, b: int) => true).spans)
  {
    var accept: CharSpan := (t: string, a: int, b: int) => true;
    var ents := BuildEntities(texto, name, name);
    CoincidingSpans(texto, name);
    KeptMembers(texto, ents, accept);
    KeptIsSubsequence(texto, ents, accept);
    var kept := Kept(texto, ents, accept);
    assert ents[0] in kept && ents[1] in kept;
    assert kept == ents by {
      assert ents == [ents[0]] + [ents[1]];
      KeptAppend(texto, [ents[0]], [ents[1]], accept);
      assert [ents[0]][1..] == [] && [ents[1]][1..] == [];
    }
    assert ents[0] in Locate(texto, name, GIVEN_NAME) + Locate(texto, name, SURNAME);
    assert Overlap(kept[0], kept[1]);
  }

  /** The body of the row loop of `gerar_spacy_dataset` up to `doc.ents`:
      locate the names, make the document, keep the spans `char_span`
      accepts. */
  method BuildDocument(row: NameRecord, charSpan: CharSpan) returns (doc: Example)
    ensures doc == DocumentOf(charSpan)(row)
  {
    var ents := BuildEntities(row.fullText, row.given, row.surname);
    var spans := FilterAlignable(row.fullText, ents, charSpan);
    doc := Example(row.fullText, spans);
  }

  /** How a row becomes its document, as a value that the row loop's
      specification is written over. */
  type Builder = NameRecord -> Example

  /** The document builder of `gerar_spacy_dataset` for a given tokenizer. */
  function DocumentOf(charSpan: CharSpan): Builder {
    (row: NameRecord) => ExampleOf(row, charSpan)
  }

  /** The documents the first `n` rows become, in row order. */
  function ExamplesUpTo(rows: seq<NameRecord>, n: nat, build: Builder): (r: seq<Example>)
    requires n <= |rows|
    ensures |r| == n
  {
    if n == 0 then [] else ExamplesUpTo(rows, n - 1, build) + [build(rows[n - 1])]
  }

  /** Position `k` of the documents of the first `n` rows holds the
      document of row `k`. */
  lemma {:induction false} ExamplesUpToAt(rows: seq<NameRecord>, n: nat, k: nat, build: Builder)
    requires k < n <= |rows|
    ensures ExamplesUpTo(rows, n, build)[k] == build(rows[k])
  {
    if k < n - 1 {
      ExamplesUpToAt(rows, n - 1, k, build);
    }
  }

  /** What the row loop of `gerar_spacy_dataset` ends with: every document,
      or the first row whose `doc.ents = spans` fails. */
  datatype Build = Documents(docs: seq<Example>) | ConflictingEntities(row: nat)

  /** The state of the row loop after its first `n` rows: the documents so
      far, or the row that stopped it. */
  function BuildUpTo(rows: seq<NameRecord>, n: nat, build: Builder): (r: Build)
    requires n <= |rows|
    ensures r.ConflictingEntities? ==> r.row < n
  {
    if n == 0 then Documents([])
    else
      var prev := BuildUpTo(rows, n - 1, build);
      if prev.ConflictingEntities? then prev
      else
        var doc := build(rows[n - 1]);
        if HasOverlap(doc.spans) then ConflictingEntities(n - 1) else Documents(prev.docs + [doc])
  }

  /** Once a row has stopped the loop, later rows change nothing. */
  lemma {:induction false} ConflictPersists(rows: seq<NameRecord>, m: nat, n: nat, build: Builder)
    requires m <= n <= |rows|
    requires BuildUpTo(rows, m, build).ConflictingEntities?
    ensures BuildUpTo(rows, n, build) == BuildUpTo(rows, m, build)
  {
    if m < n {
      ConflictPersists(rows, m, n - 1, build);
    }
  }

  /** The loop gets through the first `n` rows exactly when none of their
      documents has overlapping spans, and then holds those documents. */
  lemma {:induction false} BuildUpToDocuments(rows: seq<NameRecord>, n: nat, build: Builder)
    requires n <= |rows|
    ensures BuildUpTo(rows, n, build).Documents? <==>
      forall k :: 0 <= k < n ==> !HasOverlap(build(rows[k]).spans)
    ensures BuildUpTo(rows, n, build).Documents? ==> BuildUpTo(rows, n, build).docs == ExamplesUpTo(rows, n, build)
  {
    if n > 0 {
      BuildUpToDocuments(rows, n - 1, build);
    }
  }

  /** The row that stops the loop is the first row whose document has
      overlapping spans. */
  lemma {:induction false} BuildUpToConflict(rows: seq<NameRecord>, n: nat, build: Builder)
    requires n <= |rows|
    requires BuildUpTo(rows, n, build).ConflictingEntities?
    ensures var i := BuildUpTo(rows, n, build).row;
      && HasOverlap(build(rows[i]).spans)
      && forall k :: 0 <= k < i ==> !HasOverlap(build(rows[k]).spans)
  {
    if BuildUpTo(rows, n - 1, build).ConflictingEntities? {
      BuildUpToConflict(rows, n - 1, build);
    } else {
      BuildUpToDocuments(rows, n - 1, build);
    }
  }

  /** One turn of the row loop: a document with overlapping spans stops the
      loop at its row for good, and any other document is appended. */
  lemma RowStep(rows: seq<NameRecord>, i: nat, docs: seq<Example>, doc: Example, build: Builder)
    requires i < |rows|
    requires BuildUpTo(rows, i, build) == Documents(docs)
    requires doc == build(rows[i])
    ensures HasOverlap(doc.spans) ==> BuildUpTo(rows, |rows|, build) == ConflictingEntities(i)
    ensures !HasOverlap(doc.spans) ==> BuildUpTo(rows, i + 1, build) == Documents(docs + [doc])
  {
    if HasOverlap(doc.spans) {
      ConflictPersists(rows, i + 1, |rows|, build);
    }
  }

  /** The row loop of `gerar_spacy_dataset`: one document per row, in row
      order, each with its filtered span list assigned even when it is empty;
      the first row whose kept spans overlap stops the loop with an error,
      and then no document reaches the output. */
  method BuildExamples(rows: seq<NameRecord>, charSpan: CharSpan) returns (r: Build)
    ensures r == BuildUpTo(rows, |rows|, DocumentOf(charSpan))
  {
    var docs: seq<Example> := [];
    for i := 0 to |rows|
      invariant BuildUpTo(rows, i, DocumentOf(charSpan)) == Documents(docs)
    {
      var doc := BuildDocument(rows[i], charSpan);
      RowStep(rows, i, docs, doc, DocumentOf(charSpan));
      if HasOverlap(doc.spans) {
        return ConflictingEntities(i);
      }
      docs := docs + [doc];
    }
    return Documents(docs);
  }
}
