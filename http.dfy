/** Values shared by the three components: bytes, an Option type, and the part
  * of the contract of net/http's ResponseWriter that the handlers rely on.
  *
  * A response is a value that the handlers thread through their steps. The
  * first WriteHeader or Write commits the status line; after that, further
  * status codes are ignored and header changes no longer take effect
  * (net/http snapshots the header map when it commits). Body bytes append.
  * The headers net/http itself adds at the commit (Date, Content-Length, a
  * sniffed Content-Type when none is set) are not modelled. */
module Http {

  newtype byte = x: int | 0 <= x < 256

  datatype Option<T> = None | Some(value: T)

  // Status codes, with the section of RFC 9110 that defines each
  const StatusOK := 200                   // section 15.3.1
  const StatusMovedPermanently := 301     // section 15.4.2
  const StatusForbidden := 403            // section 15.5.4
  const StatusNotFound := 404             // section 15.5.5
  const StatusInternalServerError := 500  // section 15.6.1

  const ContentTypeHeader := "Content-Type"
  const HtmlUtf8 := "text/html; charset=utf-8"
  const PlainUtf8 := "text/plain; charset=utf-8"

  /** UTF-8 encoding of one Unicode scalar value, as Go's []byte(string) conversion produces it. */
  function EncodeRune(c: char): (b: seq<byte>)
    ensures 1 <= |b| <= 4
    ensures (|b| == 1) <==> (c as int < 0x80)
    ensures |b| == 1 ==> b[0] as int == c as int
  {
    var n := c as int;
    if n < 0x80 then [n as byte]
    else if n < 0x800 then [(0xC0 + n / 0x40) as byte, (0x80 + n % 0x40) as byte]
    else if n < 0x1_0000 then
      [(0xE0 + n / 0x1000) as byte, (0x80 + (n / 0x40) % 0x40) as byte, (0x80 + n % 0x40) as byte]
    else
      [(0xF0 + n / 0x4_0000) as byte, (0x80 + (n / 0x1000) % 0x40) as byte,
       (0x80 + (n / 0x40) % 0x40) as byte, (0x80 + n % 0x40) as byte]
  }

  /** The bytes of a Go string literal. */
  function Utf8(s: string): (b: seq<byte>)
    ensures |b| >= |s|
  {
    if s == [] then [] else EncodeRune(s[0]) + Utf8(s[1..])
  }

  datatype Response = Response(
    status: Option<int>,           // the committed status code; None while nothing is committed
    headers: map<string, string>,  // the handler's headers as of the commit
    body: seq<byte>,
    redirectTo: Option<string>)    // the Location header set by a redirect
  {
    predicate Committed() { status.Some? }

    /** w.Header().Set(name, value) */
    function SetHeader(name: string, value: string): Response {
      if Committed() then this else this.(headers := headers[name := value])
    }

    predicate HasHeader(name: string, value: string) {
      name in headers && headers[name] == value
    }

    /** w.WriteHeader(code): only the first status code takes effect. */
    function WriteHeader(code: int): Response {
      if Committed() then this else this.(status := Some(code))
    }

    /** w.Write(data): commits status 200 if nothing was committed before. */
    function Write(data: seq<byte>): Response {
      this.(status := Some(if Committed() then status.value else StatusOK), body := body + data)
    }

    /** http.Redirect(w, r, url, code), without the short body net/http adds for GET requests. */
    function Redirect(url: string, code: int): Response {
      (if Committed() then this else this.(redirectTo := Some(url))).WriteHeader(code)
    }

    /** http.Error(w, msg, code): a plain-text body terminated by a newline. */
    function Error(msg: string, code: int): Response {
      SetHeader(ContentTypeHeader, PlainUtf8)
        .SetHeader("X-Content-Type-Options", "nosniff")
        .WriteHeader(code)
        .Write(Utf8(msg + "\n"))
    }
  }

  /** The writer a handler receives: nothing committed, the given headers already set. */
  function Fresh(headers: map<string, string>): (w: Response)
    ensures !w.Committed() && w.headers == headers && w.body == []
  {
    Response(None, headers, [], None)
  }

  /** Once a status is committed no later step changes it or the headers sent;
    * body bytes are only ever appended. */
  lemma CommittedIsFinal(w: Response, name: string, value: string, code: int, data: seq<byte>, url: string, msg: string)
    requires w.Committed()
    ensures w.SetHeader(name, value) == w
    ensures w.WriteHeader(code) == w
    ensures w.Write(data) == w.(body := w.body + data)
    ensures w.Redirect(url, code) == w
    ensures w.Error(msg, code) == w.(body := w.body + Utf8(msg + "\n"))
  {
  }

  /** The ASCII strings the handlers write are encoded byte for byte. */
  lemma {:induction false} Utf8Ascii(s: string)
    requires forall i :: 0 <= i < |s| ==> s[i] as int < 0x80
    ensures |Utf8(s)| == |s|
    ensures forall i :: 0 <= i < |s| ==> Utf8(s)[i] as int == s[i] as int
  {
    if s != [] {
      Utf8Ascii(s[1..]);
      assert Utf8(s) == EncodeRune(s[0]) + Utf8(s[1..]);
    }
  }
}
