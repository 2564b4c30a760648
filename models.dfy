/** The request and response records of the annotation service. */
module Models {
  import opened Wrappers

  datatype Language = Japanese | Chinese

  /** A request to annotate `baseText`, written in `language`. */
  datatype AnnotateRequest = AnnotateRequest(baseText: string, language: Language)

  /** A reading placed over the half-open character range `indices`;
      `annotationText == None` marks a position that carries no reading. */
  datatype Annotation = Annotation(indices: (int, int), annotationText: Option<string>)

  /** A slice `indices` of the request text. `annotations == None`: not
      annotatable; `Some([])`: annotatable, no reading resolved;
      `Some(as)`: the readings over its sub-ranges. */
  datatype AnnotatedTextSegment =
    AnnotatedTextSegment(indices: (int, int), annotations: Option<seq<Annotation>>)
}
