/** The exceptions that can end a request: the two failures the services
    raise, and the Python errors the modelled code raises on its own. */
module Exceptions {
  import opened Models

  datatype Exception =
    | SegmentationFailed(request: AnnotateRequest)
    | AnnotationFailed(request: AnnotateRequest)
      /** a local variable read before any assignment to it */
    | UnboundLocalError(variable: string)
      /** an attribute read on `None` */
    | AttributeError(attribute: string)
    | NotImplementedError
      /** a call with more positional arguments than the callee takes */
    | TypeError
}
