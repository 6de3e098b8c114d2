/** The optional value used where pdftext.go either has a result or falls
    back to a default (a decoder that panicked, a word that is dropped, a
    rule that matched). */
module Options {
  datatype Option<T> = None | Some(value: T)
}
