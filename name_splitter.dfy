/** The inference side: the recognised entities of a full name bucketed by
    label and joined into a given-name string and a surname string. */
module NameSplitter {
  import opened Text
  import opened Labels

  /** One entity of `doc.ents`: its label and the text it covers. */
  datatype RecognizedEntity = RecognizedEntity(tag: Label, text: string)

  /** The trained recogniser, seen only through what it returns: the ordered
      entities it finds in a text. */
  type Model = string -> seq<RecognizedEntity>

  /** The texts of the entities labelled `tag`, in entity order. */
  function TextsLabelled(ents: seq<RecognizedEntity>, tag: Label): (r: seq<string>)
    ensures |r| <= |ents|
    decreases |ents|
  {
    if ents == [] then []
    else
      var head := if ents[0].tag == tag then [ents[0].text] else [];
      head + TextsLabelled(ents[1..], tag)
  }

  /** Bucketing a concatenation buckets each part, in order: the texts keep
      the order of the entities they come from. */
  lemma {:induction false} TextsAppend(a: seq<RecognizedEntity>, b: seq<RecognizedEntity>, tag: Label)
    ensures TextsLabelled(a + b, tag) == TextsLabelled(a, tag) + TextsLabelled(b, tag)
    decreases |a|
  {
    if a == [] {
      assert a + b == b;
    } else {
      var head := if a[0].tag == tag then [a[0].text] else [];
      assert (a + b)[0] == a[0] && (a + b)[1..] == a[1..] + b;
      assert TextsLabelled(a + b, tag) == head + TextsLabelled(a[1..] + b, tag);
      TextsAppend(a[1..], b, tag);
    }
  }

  /** An entity with another label contributes nothing to the bucket, wherever
      it stands. */
  lemma IgnoresOtherLabel(a: seq<RecognizedEntity>, e: RecognizedEntity, b: seq<RecognizedEntity>, tag: Label)
    requires e.tag != tag
    ensures TextsLabelled(a + [e] + b, tag) == TextsLabelled(a + b, tag)
  {
    TextsAppend(a + [e], b, tag);
    TextsAppend(a, [e], tag);
    TextsAppend(a, b, tag);
    assert TextsLabelled([e], tag) == [];
  }

  /** No entity carries the label `tag`. */
  predicate NoneLabelled(ents: seq<RecognizedEntity>, tag: Label) {
    forall i :: 0 <= i < |ents| ==> ents[i].tag != tag
  }

  /** A bucket is empty exactly when no entity carries its label. */
  lemma {:induction false} TextsEmptyIff(ents: seq<RecognizedEntity>, tag: Label)
    ensures TextsLabelled(ents, tag) == [] <==> NoneLabelled(ents, tag)
    decreases |ents|
  {
    if ents != [] {
      TextsEmptyIff(ents[1..], tag);
      assert forall i :: 0 < i < |ents| ==> ents[i] == ents[1..][i - 1];
    }
  }

  /** A text is in the bucket exactly when some entity with that label
      carries it. */
  lemma {:induction false} TextsMembers(ents: seq<RecognizedEntity>, tag: Label)
    ensures forall t :: t in TextsLabelled(ents, tag) <==> RecognizedEntity(tag, t) in ents
    decreases |ents|
  {
    if ents != [] {
      TextsMembers(ents[1..], tag);
      assert ents == [ents[0]] + ents[1..];
    }
  }

  /** The number of entities with a label that is neither GIVEN_NAME nor
      SURNAME. */
  function CountOthers(ents: seq<RecognizedEntity>): (n: nat)
    ensures n <= |ents|
    decreases |ents|
  {
    if ents == [] then 0
    else (if ents[0].tag != GIVEN_NAME && ents[0].tag != SURNAME then 1 else 0) + CountOthers(ents[1..])
  }

  /** Every entity lands in exactly one of the two buckets or in neither: the
      two buckets and the ignored entities together account for every entity
      once. */
  lemma {:induction false} BucketsPartition(ents: seq<RecognizedEntity>)
    ensures |TextsLabelled(ents, GIVEN_NAME)| + |TextsLabelled(ents, SURNAME)| + CountOthers(ents) == |ents|
    decreases |ents|
  {
    LabelsDistinct();
    if ents != [] {
      BucketsPartition(ents[1..]);
    }
  }

  /** Bucketing one more entity appends its text when it has the label. */
  lemma TextsSnoc(ents: seq<RecognizedEntity>, i: nat, tag: Label)
    requires i < |ents|
    ensures TextsLabelled(ents[..i + 1], tag) ==
      TextsLabelled(ents[..i], tag) + (if ents[i].tag == tag then [ents[i].text] else [])
  {
    assert ents[..i + 1] == ents[..i] + [ents[i]];
    TextsAppend(ents[..i], [ents[i]], tag);
  }

  /** `separar_nome`: runs the model on the full name, appends the text of
      each GIVEN_NAME entity to one list and of each SURNAME entity to the
      other (the tests are an `if`/`elif`), and joins each list with a space. */
  method SplitName(modelo: Model, nomeCompleto: string) returns (nome: string, sobrenome: string)
    ensures nome == Join(" ", TextsLabelled(modelo(nomeCompleto), GIVEN_NAME))
    ensures sobrenome == Join(" ", TextsLabelled(modelo(nomeCompleto), SURNAME))
    ensures NoneLabelled(modelo(nomeCompleto), GIVEN_NAME) ==> nome == ""
    ensures NoneLabelled(modelo(nomeCompleto), SURNAME) ==> sobrenome == ""
  {
    var ents := modelo(nomeCompleto);
    var partesNome: seq<string> := [];
    var partesSobrenome: seq<string> := [];
    for i := 0 to |ents|
      invariant partesNome == TextsLabelled(ents[..i], GIVEN_NAME)
      invariant partesSobrenome == TextsLabelled(ents[..i], SURNAME)
    {
      var ent := ents[i];
      TextsSnoc(ents, i, GIVEN_NAME);
      TextsSnoc(ents, i, SURNAME);
      if ent.tag == GIVEN_NAME {
        partesNome := partesNome + [ent.text];
      } else if ent.tag == SURNAME {
        partesSobrenome := partesSobrenome + [ent.text];
      }
    }
    assert ents[..|ents|] == ents;
    TextsEmptyIff(ents, GIVEN_NAME);
    TextsEmptyIff(ents, SURNAME);
    nome := Join(" ", partesNome);
    sobrenome := Join(" ", partesSobrenome);
  }

  /** The length of a joined bucket: the texts' lengths plus one space
      between neighbours, and the empty string for an empty bucket. */
  lemma JoinedBucketLength(ents: seq<RecognizedEntity>, tag: Label)
    ensures var parts := TextsLabelled(ents, tag);
      |Join(" ", parts)| == if parts == [] then 0 else TotalLength(parts) + |parts| - 1
  {
    var parts := TextsLabelled(ents, tag);
    if parts != [] {
      JoinLength(" ", parts);
    }
  }

  /** The joined output gives the bucket back when split on spaces, as long as
      the bucket is non-empty and no entity text in it contains a space. */
  lemma BucketRecoverable(ents: seq<RecognizedEntity>, tag: Label)
    requires TextsLabelled(ents, tag) != []
    requires forall i :: 0 <= i < |ents| && ents[i].tag == tag ==> ' ' !in ents[i].text
    ensures Split(' ', Join(" ", TextsLabelled(ents, tag))) == TextsLabelled(ents, tag)
  {
    var parts := TextsLabelled(ents, tag);
    TextsMembers(ents, tag);
    forall k | 0 <= k < |parts| ensures ' ' !in parts[k] {
      assert parts[k] in parts;
      var i :| 0 <= i < |ents| && ents[i] == RecognizedEntity(tag, parts[k]);
    }
    SplitJoin(' ', parts);
  }

  /** The worked example "Maria Silva": a GIVEN_NAME entity "Maria" and a
      SURNAME entity "Silva" give the given name "Maria" and surname "Silva". */
  lemma MariaSilva()
    ensures var ents := [RecognizedEntity(GIVEN_NAME, "Maria"), RecognizedEntity(SURNAME, "Silva")];
      Join(" ", TextsLabelled(ents, GIVEN_NAME)) == "Maria" &&
      Join(" ", TextsLabelled(ents, SURNAME)) == "Silva"
  {
    LabelsDistinct();
    var maria, silva := RecognizedEntity(GIVEN_NAME, "Maria"), RecognizedEntity(SURNAME, "Silva");
    assert [maria, silva] == [maria] + [silva];
    assert [maria][1..] == [] && [silva][1..] == [];
    TextsAppend([maria], [silva], GIVEN_NAME);
    TextsAppend([maria], [silva], SURNAME);
    assert TextsLabelled([maria, silva], GIVEN_NAME) == ["Maria"];
    assert TextsLabelled([maria, silva], SURNAME) == ["Silva"];
  }
}
