/** The payload extraction every upload path performs on a data URL,
    `dataUrl.split(',')[1]`, and the form of the URLs it is applied to:
    `data:[<mediatype>][;base64],<data>` (section 3 of RFC 2397) with base64
    data (section 4 of RFC 4648). */
module DataUrl {
  import opened Wrappers
  import Text

  /** The second comma-separated field, or None (`undefined`) when the text
      has no comma at all. */
  function PayloadField(dataUrl: string): (field: Option<string>)
    ensures field.None? <==> ',' !in dataUrl
    ensures field.Some? ==> ',' !in field.value
  {
    var fields := Text.Split(dataUrl, ',');
    if |fields| > 1 then Some(fields[1]) else None
  }

  /** The field runs from the first comma up to the next comma or the end. */
  lemma PayloadStopsAtNextComma(header: string, rest: string)
    requires ',' !in header
    ensures PayloadField(header + "," + rest) == Some(Text.Split(rest, ',')[0])
  {
    Text.SplitAtFirst(header, rest, ',');
  }

  /** A comma-free payload after a comma-free header is returned whole. */
  lemma PayloadOfHeaderAndData(header: string, payload: string)
    requires ',' !in header && ',' !in payload
    ensures PayloadField(header + "," + payload) == Some(payload)
  {
    PayloadStopsAtNextComma(header, payload);
    Text.SplitWithoutSeparator(payload, ',');
  }

  /** The base64 alphabet with its padding character (section 4 of RFC 4648). */
  predicate IsBase64Char(c: char) {
    'A' <= c <= 'Z' || 'a' <= c <= 'z' || '0' <= c <= '9' || c == '+' || c == '/' || c == '='
  }

  predicate IsBase64(s: string) {
    forall i :: 0 <= i < |s| ==> IsBase64Char(s[i])
  }

  /** A base64 data URL for a media type, as `readAsDataURL` produces it. */
  function Encode(mediaType: string, payload: string): string {
    "data:" + mediaType + ";base64," + payload
  }

  /** Extraction inverts encoding: base64 text holds no comma, so the second
      field of an encoded URL is exactly its payload. */
  lemma PayloadOfEncoded(mediaType: string, payload: string)
    requires ',' !in mediaType
    requires IsBase64(payload)
    ensures PayloadField(Encode(mediaType, payload)) == Some(payload)
  {
    assert ',' !in payload;
    var header := "data:" + mediaType + ";base64";
    assert ',' !in header;
    assert Encode(mediaType, payload) == header + "," + payload;
    PayloadOfHeaderAndData(header, payload);
  }
}
