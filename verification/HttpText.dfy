/** The fixed texts of an HTTP response, decimal numbers, and parsing a request
    (src/protocol.rs:61-87, src/router.rs:497-511, 822-828 and 860-901, src/processor/shader_strings.rs:12). */
module HttpText {
  import opened Bits
  import opened ByteText
  import opened Wire

  /** The bytes of an ASCII text. */
  function Ascii(s: string): (b: seq<u8>)
    ensures |b| == |s|
  {
    seq<u8>(|s|, i requires 0 <= i < |s| => s[i] as int % 0x100)
  }

  const HTTP_VERSION: seq<u8> := Ascii("HTTP/1.1 ")
  const CONTENT_TYPE: seq<u8> := Ascii("\r\nContent-Type: ")
  const CONTENT_LENGTH: seq<u8> := Ascii("\r\nContent-Length: ")
  const CONNECTION_CLOSE: seq<u8> := Ascii("\r\nConnection: close")
  const SERVER: seq<u8> := Ascii("\r\nServer: gput\r\nX-Gput-Backend: ")
  const BLANK_LINE: seq<u8> := Ascii("\r\n\r\n")
  const GPU: seq<u8> := Ascii("gpu")

  /** The header tail the shader writes, and the reserved text the compiler interns in its place. */
  const PERSISTENT_TAIL: seq<u8> := SERVER + GPU + BLANK_LINE
  const RESERVED_TAIL: seq<u8> := CONNECTION_CLOSE + PERSISTENT_TAIL

  // ----- decimal numbers

  function Digit(d: nat): u8
    requires d < 10
  {
    48 + d
  }

  /** `to_string()` of a number. */
  function Decimal(v: nat): (d: seq<u8>)
    ensures |d| >= 1
  {
    if v < 10 then [Digit(v)] else Decimal(v / 10) + [Digit(v % 10)]
  }

  /** More digits for larger numbers. */
  lemma {:induction false} DecimalGrows(a: nat, b: nat)
    requires a <= b
    ensures |Decimal(a)| <= |Decimal(b)|
  {
    if a >= 10 {
      DecimalGrows(a / 10, b / 10);
    }
  }

  lemma DecimalOfU32(v: u32)
    ensures |Decimal(v)| <= 10
  {
    DecimalGrows(v, 0xffff_ffff);
    assert |Decimal(4)| == 1;
    assert |Decimal(4294)| == 4;
    assert |Decimal(4294967)| == 7;
    assert |Decimal(4294967295)| == 10;
  }

  /** `decimal_width` */
  method DecimalWidth(value: u32) returns (width: nat)
    ensures width == |Decimal(value)|
  {
    width := 1;
    var remaining: u32 := value;
    while remaining >= 10
      invariant width + |Decimal(remaining)| == |Decimal(value)| + 1
    {
      remaining := remaining / 10;
      width := width + 1;
    }
  }

  function Pow10(k: nat): (p: nat)
    ensures p >= 1
  {
    if k == 0 then 1 else 10 * Pow10(k - 1)
  }

  /** The number without its last k digits. */
  function DropDigits(v: nat, k: nat): nat {
    if k == 0 then v else DropDigits(v, k - 1) / 10
  }

  lemma {:induction false} DropDigitsIs(v: nat, k: nat, p: nat)
    requires p == Pow10(k)
    ensures v / p == DropDigits(v, k)
  {
    if k > 0 {
      var h := Pow10(k - 1);
      DropDigitsIs(v, k - 1, h);
      DivideTwice(v, h, p);
    }
  }

  lemma DivideTwice(v: nat, h: nat, p: nat)
    requires h > 0 && p == 10 * h
    ensures v / p == v / h / 10
  {
    var q, r := v / h, v % h;
    MulDistributes(h, 10 * (q / 10), q % 10);
    MulMonotone(h, q % 10, 9);
    assert h * (10 * (q / 10)) == p * (q / 10) by { MulAssociates(h, 10, q / 10); }
    DivModUnique(v, p, q / 10, h * (q % 10) + r);
  }

  /** A divisor with a two-digit quotient can be multiplied by ten. */
  lemma TenTimes(v: nat, p: nat)
    requires p > 0 && v / p >= 10
    ensures 10 * p <= v
  {
    MulMonotone(p, 10, v / p);
  }

  // ----- requests

  /** The parts of a GET request a response can echo. */
  datatype Parts = Parts(path: seq<u8>, query: seq<u8>, pathHash: u32)

  const NO_PARTS := Parts([], [], 0)

  datatype Request = Get(parts: Parts) | BadRequest | MethodNotAllowed

  function PathHash(path: seq<u8>): u32 {
    Fnv1a(path)
  }

  /** The target before and after the first question mark. */
  function SplitTarget(target: seq<u8>): Parts {
    match IndexOf(target, QUESTION)
    case None => Parts(target, [], PathHash(target))
    case Some(q) => Parts(target[..q], target[q + 1..], PathHash(target[..q]))
  }

  /** `strip_suffix(b"\r").unwrap_or(..)` */
  function StripCr(line: seq<u8>): seq<u8> {
    if line != [] && line[|line| - 1] == CR then line[..|line| - 1] else line
  }

  function ParseRequest(request: seq<u8>): Request {
    match IndexOf(request, LF)
    case None => BadRequest
    case Some(lineEnd) =>
      var parts := Split(StripCr(request[..lineEnd]), SPACE);
      if |parts| != 3 then BadRequest
      else if parts[0] != ByteText.GET then MethodNotAllowed
      else if parts[2] != HTTP_1_1 && parts[2] != HTTP_1_0 then BadRequest
      else if parts[1] == [] || parts[1][0] != SLASH then BadRequest
      else if SplitTarget(parts[1]).path == [] then BadRequest
      else Get(SplitTarget(parts[1]))
  }
}
