/**
 * The two halves joined: a reply of the `/api/process-image` handler as the
 * browser script receives it, and what the page shows as a result.
 */
module Exchange {
  import opened Wrappers
  import Server
  import Client
  import NlpProcessor

  /** The JSON fields of a reply body, as the script reads them. */
  function ToData(b: Server.ReplyBody): (d: Client.ResponseData)
    ensures b.ErrorBody? ==> d.error == Some(b.error) && d.enhancedText.None? && d.originalText.None?
    ensures b.TextBody? ==> d.enhancedText == Some(b.enhancedText) && d.originalText == Some(b.originalText) && d.error.None?
  {
    match b
    case ErrorBody(e) => Client.ResponseData(None, None, Some(e))
    case TextBody(original, enhanced) => Client.ResponseData(Some(enhanced), Some(original), None)
  }

  /** `response.ok` is a 2xx status; every reply of the handler is JSON. */
  function Deliver(rep: Server.Reply): (r: (bool, Client.Payload))
    ensures r.0 <==> 200 <= rep.status < 300
    ensures r.1 == Client.Parsed(ToData(rep.body))
  {
    (200 <= rep.status < 300, Client.Parsed(ToData(rep.body)))
  }

  /**
   * For an accepted upload the page shows the enhanced text, or the raw OCR
   * text when enhancement left nothing, or the fallback when both are empty.
   */
  lemma RecognizedTextReachesPage(u: Client.Ui, id: nat, req: Server.UploadRequest, text: string)
    requires id in u.tickers && Server.Acceptable(req)
    ensures
      var r := Deliver(Server.ProcessHandwriting(req, Server.Recognized(text)));
      var v := Client.Respond(u, id, r.0, r.1);
      var enhanced := NlpProcessor.EnhanceText(text);
      && v.resultsVisible && v.bar == 100 && v.errorVisible == u.errorVisible
      && v.text == (if enhanced != "" then enhanced else if text != "" then text else Client.NoTextDetected)
  {
  }

  /** Every error reply of the server, validation or exception, appears verbatim in the banner. */
  lemma ServerErrorReachesPage(u: Client.Ui, id: nat, req: Server.UploadRequest, run: Server.OcrRun)
    requires id in u.tickers
    requires Server.ProcessHandwriting(req, run).status != 200
    ensures
      var rep := Server.ProcessHandwriting(req, run);
      var r := Deliver(rep);
      var v := Client.Respond(u, id, r.0, r.1);
      v.errorVisible && v.errorText == rep.body.error && v.resultsVisible == u.resultsVisible
  {
  }

  /** The 413 handler's reply shows "File too large" in the banner. */
  lemma TooLargeReplyReachesPage(u: Client.Ui, id: nat)
    requires id in u.tickers
    ensures
      var r := Deliver(Server.ErrorHandlerReply(Server.EntityTooLarge));
      var v := Client.Respond(u, id, r.0, r.1);
      v.errorVisible && v.errorText == Server.TooLargeMessage
  {
  }
}
