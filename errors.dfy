/** Optional values, results and the error conditions the expander and planner raise. */
module Errors {

  datatype Option<+T> = None | Some(value: T)

  datatype Result<+T> = Ok(value: T) | Err(error: Error) {
    predicate IsFailure() { Err? }
    function PropagateFailure<U>(): Result<U>
      requires Err?
    {
      Err(error)
    }
    function Extract(): T
      requires Ok?
    {
      value
    }
  }

  /** One constructor per distinct failure of the core. Constructors carrying a
      `template` or `page` are the ones the source attributes to a file path. */
  datatype Error =
    | OpenNoClose                                  // "opening tag with no matching close"
    | CloseNoOpen                                  // "closing tag with no matching open"
    | MissingGt                                    // "missing `>`"
    | InvalidTag(tag: string)                      // "invalid tag `...`"
    | FieldMissingName(template: string)           // a field tag lacks `--name`
    | FieldRequired(template: string, field: string)
    | OverlappingTags(template: string)
    | TemplateNameRequired
    | CouldntParseField(part: string)
    | TemplateMissing(name: string)                // lookup of an absent template name
    | TemplateNotDocument(name: string)            // a template that is a Blob has no content
    | UnknownTemplate(page: string, name: string)  // "`name` template doesn't exist"
    | InPage(page: string, inner: Error)           // a document defect attributed to a page
    | OutOfFuel                                    // the expansion bound was reached
}
