/**
 * The toasts the viewer shows. Only which notice is raised, and in what order,
 * is modelled; the wording, icons and auto-dismiss timers are presentation.
 */
module Notifications {
  /** The tag a notice is shown with (`success`, `error`, `warning`, `info`). */
  datatype Level = Success | Error | Warning | Info

  datatype Notice =
    | Welcome                 // shown once at start-up
    | FileTooLarge            // a supported file over the size ceiling
    | ValidationError         // a batch with no valid file at all
    | AspectRatioWarning      // decoded, but not roughly 2:1
    | Uploaded(fileName: string)
    | LoadingError            // the file could not be read or decoded
    | Deleted                 // a record was removed from the gallery

  function LevelOf(n: Notice): (l: Level)
    ensures l == Error <==> n == FileTooLarge || n == ValidationError || n == LoadingError
    ensures l == Success <==> n == Welcome || n.Uploaded?
  {
    match n
    case Welcome => Success
    case FileTooLarge => Error
    case ValidationError => Error
    case AspectRatioWarning => Warning
    case Uploaded(_) => Success
    case LoadingError => Error
    case Deleted => Info
  }
}
