/**
 * The single-page client: the user drops an image, presses "Analyze TILs", the image is posted
 * to the server, and the output panel shows the returned mask or an error.
 */
module Frontend {
  import opened Wrappers
  import Wire

  /** The message shown when "Analyze TILs" runs with no image picked. */
  const NO_IMAGE: string := "No image selected."

  /** The message shown when the server reports failure without a usable message. */
  const FALLBACK: string := "Error processing image."

  /** The message shown when the request or the reading of its reply throws. */
  const RETRY: string := "Error processing image. Please try again."

  /** The prefix that turns base64-encoded PNG data into an image source. */
  const PNG_PREFIX: string := "data:image/png;base64,"

  /** What a template string makes of an absent value. */
  const UNDEFINED: string := "undefined"

  /** A file the user picked; only its identity matters here. */
  datatype File = File(name: string)

  /** JavaScript truthiness of a string or `null`: `null` and `""` are falsy. */
  predicate Truthy(s: Option<string>) {
    s.Some? && s.value != ""
  }

  /** How the request ended: with the reply's parsed JSON body, or with an exception. */
  datatype FetchResult = Parsed(data: Wire.Body) | Threw

  /** What the output panel shows. */
  datatype Panel = ErrorPanel(message: string) | ResultPanel(src: string) | Placeholder

  /** The output panel: the error if there is one, else the result image if there is one, else a placeholder. */
  function OutputPanel(error: Option<string>, outputImage: Option<string>): (panel: Panel)
    ensures panel.ErrorPanel? <==> Truthy(error)
    ensures panel.ErrorPanel? ==> panel.message == error.value
    ensures panel.ResultPanel? <==> !Truthy(error) && Truthy(outputImage)
    ensures panel.ResultPanel? ==> panel.src == outputImage.value
    ensures panel.Placeholder? <==> !Truthy(error) && !Truthy(outputImage)
  {
    if Truthy(error) then ErrorPanel(error.value)
    else if Truthy(outputImage) then ResultPanel(outputImage.value)
    else Placeholder
  }

  /** `${data.mask}`. */
  function MaskText(mask: Option<string>): string {
    if mask.Some? then mask.value else UNDEFINED
  }

  /** What a finished request sets: the output image, or the error. */
  datatype Outcome = ShowImage(src: string) | ShowError(message: string)

  /**
   * The outcome of a finished request: a reply whose `success` is true gives the mask as a PNG
   * data URI; any other reply gives its `error` when that is a non-empty string and the fallback
   * message otherwise; an exception gives the retry message.
   */
  function Resolve(result: FetchResult): (outcome: Outcome)
    ensures outcome.ShowImage? <==> result.Parsed? && result.data.success == Some(true)
    ensures outcome.ShowImage? ==> outcome.src == PNG_PREFIX + MaskText(result.data.mask)
    ensures result.Threw? ==> outcome == ShowError(RETRY)
    ensures result.Parsed? && outcome.ShowError? ==>
              outcome.message == if Truthy(result.data.error) then result.data.error.value else FALLBACK
    ensures outcome.ShowError? ==> outcome.message != ""
  {
    match result
    case Threw => ShowError(RETRY)
    case Parsed(data) =>
      if data.success == Some(true) then ShowImage(PNG_PREFIX + MaskText(data.mask))
      else if Truthy(data.error) then ShowError(data.error.value)
      else ShowError(FALLBACK)
  }

  /** The panel an outcome leads to once no earlier error is pending. */
  function Display(outcome: Outcome): Panel {
    match outcome
    case ShowImage(src) => ResultPanel(src)
    case ShowError(message) => ErrorPanel(message)
  }

  /** The state of the page. */
  class App {
    var inputImage: Option<File>
    var outputImage: Option<string>
    var isProcessing: bool
    var error: Option<string>

    /**
     * A request is only in flight for a picked image and with no error pending; an error is
     * never the empty string; an output image is always a PNG data URI.
     */
    ghost predicate Valid()
      reads this
    {
      && (isProcessing ==> inputImage.Some? && error.None?)
      && (error.Some? ==> error.value != "")
      && (outputImage.Some? ==> PNG_PREFIX <= outputImage.value)
    }

    /** What the output panel shows now. */
    function Shown(): Panel
      reads this
    {
      OutputPanel(error, outputImage)
    }

    /** The initial state: nothing picked, nothing shown, nothing in flight. */
    constructor()
      ensures Valid()
      ensures inputImage.None? && outputImage.None? && !isProcessing && error.None?
      ensures Shown() == Placeholder
    {
      inputImage := None;
      outputImage := None;
      isProcessing := false;
      error := None;
    }

    /** `onDrop`: the first accepted file becomes the input, and the previous result and error go. */
    method OnDrop(acceptedFiles: seq<File>)
      requires Valid()
      modifies this
      ensures Valid()
      ensures isProcessing == old(isProcessing)
      ensures |acceptedFiles| == 0 ==>
                inputImage == old(inputImage) && outputImage == old(outputImage) && error == old(error)
      ensures |acceptedFiles| > 0 ==>
                inputImage == Some(acceptedFiles[0]) && outputImage.None? && error.None? && Shown() == Placeholder
    {
      if |acceptedFiles| > 0 {
        var file := acceptedFiles[0];
        inputImage := Some(file);
        outputImage := None;
        error := None;
      }
    }

    /**
     * The first part of `processImage`, up to sending the request: with no image picked it
     * only sets the error; otherwise it marks a request in flight and clears the error. It
     * returns the file it sends, if any. The previous result is not cleared.
     */
    method Submit() returns (request: Option<File>)
      requires Valid()
      modifies this
      ensures Valid()
      ensures request == old(inputImage)
      ensures inputImage == old(inputImage) && outputImage == old(outputImage)
      ensures old(inputImage).None? ==>
                error == Some(NO_IMAGE) && isProcessing == old(isProcessing) && Shown() == ErrorPanel(NO_IMAGE)
      ensures old(inputImage).Some? ==> isProcessing && error.None?
      ensures old(inputImage).Some? ==>
                Shown() == if outputImage.Some? then ResultPanel(outputImage.value) else Placeholder
    {
      if inputImage.None? {
        error := Some(NO_IMAGE);
        return None;
      }
      isProcessing := true;
      error := None;
      request := inputImage;
    }

    /**
     * The rest of `processImage`, once the request has ended: sets the output image or the
     * error as `Resolve` says, and then clears `isProcessing`.
     */
    method Complete(result: FetchResult)
      requires Valid() && isProcessing
      modifies this
      ensures Valid()
      ensures !isProcessing && inputImage == old(inputImage)
      ensures Resolve(result).ShowImage? ==> outputImage == Some(Resolve(result).src) && error == old(error)
      ensures Resolve(result).ShowError? ==> error == Some(Resolve(result).message) && outputImage == old(outputImage)
      ensures Shown() == Display(Resolve(result))
    {
      match Resolve(result) {
        case ShowImage(src) =>
          outputImage := Some(src);
        case ShowError(message) =>
          error := Some(message);
      }
      isProcessing := false;
    }

    /**
     * `processImage` with the request's end given as `result`: nothing is sent without an
     * image; otherwise the request runs to completion.
     */
    method ProcessImage(result: FetchResult) returns (request: Option<File>)
      requires Valid()
      modifies this
      ensures Valid()
      ensures request == old(inputImage) && inputImage == old(inputImage)
      ensures old(inputImage).None? ==>
                error == Some(NO_IMAGE) && outputImage == old(outputImage) && isProcessing == old(isProcessing)
      ensures old(inputImage).Some? ==> !isProcessing && Shown() == Display(Resolve(result))
      ensures old(inputImage).Some? && Resolve(result).ShowImage? ==>
                outputImage == Some(Resolve(result).src) && error.None?
      ensures old(inputImage).Some? && Resolve(result).ShowError? ==>
                error == Some(Resolve(result).message) && outputImage == old(outputImage)
    {
      request := Submit();
      if request.Some? {
        Complete(result);
      }
    }
  }

  /** While a request is in flight no error is shown: the panel shows the previous result or the placeholder. */
  lemma BusyShowsNoError(app: App)
    requires app.Valid() && app.isProcessing
    ensures app.Shown() == if app.outputImage.Some? then ResultPanel(app.outputImage.value) else Placeholder
  {
  }
}
