/** The HTTP handler's core: the same bucketing as the command-line splitter,
    returned as a record that also echoes the input. */
module Api {
  import opened Text
  import opened Labels
  import opened NameSplitter

  /** The response body `{entrada, nome, sobrenome}`. */
  datatype Separation = Separation(entrada: string, nome: string, sobrenome: string)

  /** The response `separar` builds for a full name, given the recogniser:
      the input echoed, and an empty field for a label no entity carries. */
  function SeparationOf(nlp: Model, nomeCompleto: string): (r: Separation)
    ensures r.entrada == nomeCompleto
    ensures NoneLabelled(nlp(nomeCompleto), GIVEN_NAME) ==> r.nome == ""
    ensures NoneLabelled(nlp(nomeCompleto), SURNAME) ==> r.sobrenome == ""
  {
    TextsEmptyIff(nlp(nomeCompleto), GIVEN_NAME);
    TextsEmptyIff(nlp(nomeCompleto), SURNAME);
    Separation(
      nomeCompleto,
      Join(" ", TextsLabelled(nlp(nomeCompleto), GIVEN_NAME)),
      Join(" ", TextsLabelled(nlp(nomeCompleto), SURNAME)))
  }

  /** `separar`: runs the recogniser on the full name, collects GIVEN_NAME and
      SURNAME texts in two lists with an `if`/`elif`, and answers with the
      input unchanged and each list joined with a space. */
  method Separate(nlp: Model, nomeCompleto: string) returns (r: Separation)
    ensures r == SeparationOf(nlp, nomeCompleto)
    ensures r.entrada == nomeCompleto
    ensures NoneLabelled(nlp(nomeCompleto), GIVEN_NAME) ==> r.nome == ""
    ensures NoneLabelled(nlp(nomeCompleto), SURNAME) ==> r.sobrenome == ""
  {
    var doc := nlp(nomeCompleto);
    var nome: seq<string> := [];
    var sobrenome: seq<string> := [];
    for i := 0 to |doc|
      invariant nome == TextsLabelled(doc[..i], GIVEN_NAME)
      invariant sobrenome == TextsLabelled(doc[..i], SURNAME)
    {
      var ent := doc[i];
      TextsSnoc(doc, i, GIVEN_NAME);
      TextsSnoc(doc, i, SURNAME);
      if ent.tag == GIVEN_NAME {
        nome := nome + [ent.text];
      } else if ent.tag == SURNAME {
        sobrenome := sobrenome + [ent.text];
      }
    }
    assert doc[..|doc|] == doc;
    r := Separation(nomeCompleto, Join(" ", nome), Join(" ", sobrenome));
  }

  /** For the same recogniser and input, the HTTP handler and the
      command-line splitter produce the same given name and surname. */
  method SeparateAgreesWithSplitName(nlp: Model, nomeCompleto: string)
    returns (r: Separation, nome: string, sobrenome: string)
    ensures r.entrada == nomeCompleto
    ensures r.nome == nome && r.sobrenome == sobrenome
  {
    r := Separate(nlp, nomeCompleto);
    nome, sobrenome := SplitName(nlp, nomeCompleto);
  }

  /** The worked example through the handler: a recogniser that finds
      "Maria" as GIVEN_NAME and "Silva" as SURNAME in "Maria Silva". */
  method MariaSilvaRequest() returns (r: Separation)
    ensures r == Separation("Maria Silva", "Maria", "Silva")
  {
    var found := [RecognizedEntity(GIVEN_NAME, "Maria"), RecognizedEntity(SURNAME, "Silva")];
    var nlp: Model := (s: string) => if s == "Maria Silva" then found else [];
    MariaSilva();
    r := Separate(nlp, "Maria Silva");
  }
}
