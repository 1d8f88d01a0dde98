/** The responses the worker's routes produce, reduced to what the routes decide:
    the status, the body and the headers they set. */
module Http {

  import opened JsValue
  import Base64

  const NoOEmbedMessage := "No oEmbed available."
  const NoPhotoUrlMessage := "Invalid oEmbed - no url provided for type photo"

  /** `btoa`'s exception, which no route catches: the framework answers it. */
  const InvalidCharacterError := "InvalidCharacterError"

  datatype Response =
      /** Status 200, `Content-Type: image/png` and
          `Cache-Control: public, max-age=<maxAge>`, `maxAge` written as given. */
    | Image(bytes: Base64.Bytes, maxAge: Json)
      /** `c.redirect(location)`: status 302 with a `Location` header. */
    | Redirect(location: Json)
      /** `c.json({ error: message }, status)`. */
    | Error(status: int, message: string)
      /** `c.json(body)`: status 200. */
    | JsonBody(body: Json)
      /** An exception the handler does not catch. */
    | Uncaught(error: string)
}
