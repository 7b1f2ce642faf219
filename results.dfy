/** Result shapes shared by the image-upload and form-validation utilities. */
module Results {

  datatype Option<+T> = None | Some(value: T)

  /** The `{ valid: boolean; error?: string }` object the validators return:
      `{ valid: true }`, or `{ valid: false, error }` with a message for the
      user. */
  datatype ValidationResult = Valid | Invalid(error: string) {
    predicate IsValid() {
      Valid?
    }
  }
}
