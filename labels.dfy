/** The entity labels the training data carries and the aggregation reads. */
module Labels {

  /** The label of an entity, compared as a string as spaCy's `label_` is. */
  type Label = string

  const GIVEN_NAME: Label := "GIVEN_NAME"
  const SURNAME: Label := "SURNAME"

  /** The two labels are different strings, which is what makes the bucket
      tests of an `if`/`elif` exclusive. */
  lemma LabelsDistinct()
    ensures GIVEN_NAME != SURNAME
  {
  }
}
