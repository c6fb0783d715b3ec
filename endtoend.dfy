/** What the page ends up showing for each reply the server can send. */
module EndToEnd {
  import opened Wrappers
  import Backend
  import Frontend

  /** A success reply shows the mask it carries as a PNG data URI. */
  lemma SuccessShowsMask(mask: string)
    ensures Frontend.Resolve(Frontend.Parsed(Backend.SuccessReply(mask).body)) ==
            Frontend.ShowImage(Frontend.PNG_PREFIX + mask)
  {
  }

  /** An error reply shows its message, or the fallback message when that message is empty. */
  lemma ErrorShowsMessage(status: nat, message: string)
    ensures Frontend.Resolve(Frontend.Parsed(Backend.ErrorReply(status, message).body)) ==
            Frontend.ShowError(if message != "" then message else Frontend.FALLBACK)
  {
  }

  /**
   * For every upload, the page shows the scaled, encoded segmentation exactly when the server
   * segmented the image without an exception; otherwise it shows the server's message, or the
   * fallback when the exception's message is empty.
   */
  lemma PredictShown(upload: Backend.Upload, classify: Backend.Classifier, encode: Backend.Encoder, fault: Option<string>)
    requires upload.Decoded? ==> upload.image.Valid()
    ensures var shown := Frontend.Resolve(Frontend.Parsed(Backend.Response(upload, classify, encode, fault).body));
      && (upload.Undecodable? ==> shown == Frontend.ShowError(Backend.INVALID_IMAGE))
      && (upload.Unreadable? ==>
            shown == Frontend.ShowError(if upload.reason != "" then upload.reason else Frontend.FALLBACK))
      && (upload.Decoded? && fault.Some? ==>
            shown == Frontend.ShowError(if fault.value != "" then fault.value else Frontend.FALLBACK))
      && (upload.Decoded? && fault.None? ==>
            shown == Frontend.ShowImage(Frontend.PNG_PREFIX + encode(Backend.ScaleMask(Backend.Segmentation(upload.image, classify)))))
  {
    var reply := Backend.Response(upload, classify, encode, fault);
    match upload {
      case Unreadable(reason) =>
        ErrorShowsMessage(500, reason);
      case Undecodable =>
        ErrorShowsMessage(400, Backend.INVALID_IMAGE);
      case Decoded(image) =>
        if fault.Some? {
          ErrorShowsMessage(500, fault.value);
        } else {
          SuccessShowsMask(encode(Backend.ScaleMask(Backend.Segmentation(image, classify))));
        }
    }
  }
}
