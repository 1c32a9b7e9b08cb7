/**
 The request the generator builds for the external QR-code image service
 (`getQRCodeUrl` in src/App.jsx). `getQRCodeUrl` itself never contacts the
 service: it only resolves a URL string. The browser fetches that URL when the
 result region renders the image, and nothing observes that load. The fixed
 one-second delay before the promise settles is not a clock here; it is the
 settle event of the application model.
 */
module QrService {

  /** The fixed endpoint, fixed image size (170x170) and the name of the
      query parameter that carries the text. */
  const Endpoint: string := "https://api.qrserver.com/v1/create-qr-code/?size=170x170&data="

  /** The reason the promise is rejected with. */
  const InvalidContent: string := "Invalid QR content"

  /** How the promise returned by `getQRCodeUrl` settles. */
  datatype Outcome = Resolved(url: string) | Rejected(reason: string)

  datatype Option<T> = None | Some(value: T)

  /** Reads the text back out of a request URL: the part after the endpoint,
      or nothing when the URL does not address the endpoint. */
  function DataOf(url: string): (d: Option<string>)
    ensures d.Some? <==> Endpoint <= url
    ensures d.Some? ==> Endpoint + d.value == url
  {
    if Endpoint <= url then Some(url[|Endpoint|..]) else None
  }

  /** A URL the service can be asked for: the endpoint followed by some
      non-empty text. */
  predicate IsQrUrl(url: string) {
    DataOf(url).Some? && DataOf(url).value != []
  }

  /** `getQRCodeUrl`: the text is appended to the endpoint exactly as given,
      without percent-encoding. The promise is rejected exactly when the text
      is empty (the URL itself is never empty); otherwise it resolves with a
      URL from which the text reads back unchanged. */
  function QrCodeUrl(qvalue: string): (o: Outcome)
    ensures o.Rejected? <==> qvalue == []
    ensures o.Rejected? ==> o.reason == InvalidContent
    ensures o.Resolved? ==> IsQrUrl(o.url) && DataOf(o.url) == Some(qvalue)
  {
    var url := Endpoint + qvalue;
    if url == [] || qvalue == [] then Rejected(InvalidContent)
    else
      assert Endpoint <= url;
      Resolved(url)
  }

  /** Different texts are never sent as the same request. */
  lemma QrCodeUrlInjective(a: string, b: string)
    requires QrCodeUrl(a).Resolved? && QrCodeUrl(b).Resolved?
    requires QrCodeUrl(a).url == QrCodeUrl(b).url
    ensures a == b
  {
    assert Some(a) == DataOf(QrCodeUrl(a).url) == Some(b);
  }
}
