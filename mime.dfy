/**
  Text decoding (`decode_str`) and body selection (`get_email_body`).
  The byte-to-text codec is a parameter: it returns None where Python's
  `bytes.decode` raises (an unknown charset gives LookupError).
 */
module Mime {
  import opened Wrappers

  type Byte = b: int | 0 <= b < 256

  /** `bytes.decode(charset, errors='ignore')`; None when the codec raises. */
  type Codec = (seq<Byte>, string) -> Option<string>

  /** A value handed to `decode_str`: raw bytes, or text that is already decoded. */
  datatype Text = Bytes(bytes: seq<Byte>) | Str(str: string)

  /** The charset `decode_str` uses: the given one, or utf-8 when it is None or empty. */
  function EffectiveCharset(encoding: Option<string>): (cs: string)
    ensures encoding.Some? && encoding.value != "" ==> cs == encoding.value
    ensures encoding.None? || encoding.value == "" ==> cs == "utf-8"
  {
    match encoding
    case Some(e) => if e != "" then e else "utf-8"
    case None => "utf-8"
  }

  /** `decode_str(s, encoding)`: bytes go through the codec, anything else is returned unchanged. */
  function DecodeStr(t: Text, encoding: Option<string>, codec: Codec): (r: Option<string>)
    ensures t.Str? ==> r == Some(t.str)
    ensures t.Bytes? ==> r == codec(t.bytes, EffectiveCharset(encoding))
  {
    match t
    case Str(s) => Some(s)
    case Bytes(b) => codec(b, EffectiveCharset(encoding))
  }

  /**
    One entry of `msg.walk()`: its `get_content_type()`, its raw
    Content-Disposition header (None when absent), its
    `get_content_charset()` and its `get_payload(decode=True)`.
   */
  datatype Part = Part(contentType: string, disposition: Option<string>, charset: Option<string>, payload: seq<Byte>)

  /** A parsed message: not multipart, or multipart with its parts in `walk()` order. */
  datatype Message = Single(part: Part) | Multipart(parts: seq<Part>)

  /** Python's `sub in s` for strings. */
  predicate Contains(s: string, sub: string)
    decreases |s|
  {
    if |s| < |sub| then false else sub <= s || Contains(s[1..], sub)
  }

  /** `sub` occurs in `s` starting at position `k`. */
  predicate OccursAt(s: string, sub: string, k: int)
  {
    0 <= k && k + |sub| <= |s| && s[k..k + |sub|] == sub
  }

  /** An occurrence in the tail of `s` is an occurrence in `s`, one position later. */
  lemma OccursShift(s: string, sub: string, k: int)
    requires |s| > 0 && OccursAt(s[1..], sub, k)
    ensures OccursAt(s, sub, k + 1)
  {
    assert s[1..][k..k + |sub|] == s[k + 1..k + 1 + |sub|];
  }

  /** An occurrence in `s` after position 0 is an occurrence in its tail, one position earlier. */
  lemma OccursUnshift(s: string, sub: string, k: int)
    requires k > 0 && OccursAt(s, sub, k)
    ensures OccursAt(s[1..], sub, k - 1)
  {
    assert s[1..][k - 1..k - 1 + |sub|] == s[k..k + |sub|];
  }

  /** `sub in s` holds exactly when `sub` occurs at some position of `s`. */
  lemma {:induction false} ContainsAt(s: string, sub: string)
    ensures Contains(s, sub) <==> exists k :: OccursAt(s, sub, k)
    decreases |s|
  {
    if |s| >= |sub| {
      if sub <= s {
        assert OccursAt(s, sub, 0);
      }
      if |s| > 0 {
        ContainsAt(s[1..], sub);
        if Contains(s[1..], sub) {
          var k :| OccursAt(s[1..], sub, k);
          OccursShift(s, sub, k);
        }
        if exists k :: OccursAt(s, sub, k) {
          var k :| OccursAt(s, sub, k);
          if k > 0 {
            OccursUnshift(s, sub, k);
          } else {
            assert sub <= s;
          }
        }
      }
    }
  }

  /**
    A part is skipped when "attachment" occurs in `str(part.get("Content-Disposition"))`,
    where a missing header prints as "None".
   */
  predicate IsAttachment(p: Part)
    ensures IsAttachment(p) <==> exists k :: OccursAt(OptionText(p.disposition), "attachment", k)
  {
    ContainsAt(OptionText(p.disposition), "attachment");
    Contains(OptionText(p.disposition), "attachment")
  }

  /** A part without a Content-Disposition header is never an attachment. */
  lemma MissingDispositionIsNotAttachment(p: Part)
    requires p.disposition.None?
    ensures !IsAttachment(p)
  {
  }

  /** A non-attachment part whose content type is text/html. */
  predicate IsHtml(p: Part)
  {
    !IsAttachment(p) && p.contentType == "text/html"
  }

  /** A non-attachment part whose content type is text/plain. */
  predicate IsPlain(p: Part)
  {
    !IsAttachment(p) && p.contentType == "text/plain"
  }

  /** `decode_str(part.get_payload(decode=True), part.get_content_charset())` */
  function DecodePart(p: Part, codec: Codec): Option<string>
  {
    DecodeStr(Bytes(p.payload), p.charset, codec)
  }

  /**
    What the walk over `parts` yields when the accumulator already holds
    `body`: an HTML part returns at once; a plain part is decoded only while
    the accumulator is empty; None when a decoding raises.
   */
  function WalkBody(parts: seq<Part>, body: string, codec: Codec): (r: Option<string>)
    ensures (forall i | 0 <= i < |parts| :: !IsHtml(parts[i]) && !IsPlain(parts[i])) ==> r == Some(body)
    ensures r.Some? && r.value != body ==>
      exists i | 0 <= i < |parts| :: (IsHtml(parts[i]) || IsPlain(parts[i])) && DecodePart(parts[i], codec) == r
    decreases |parts|
  {
    if parts == [] then Some(body)
    else
      var p := parts[0];
      if IsHtml(p) then DecodePart(p, codec)
      else if IsPlain(p) && body == "" then
        match DecodePart(p, codec)
        case None => None
        case Some(b) => WalkBody(parts[1..], b, codec)
      else WalkBody(parts[1..], body, codec)
  }

  /** `get_email_body(msg)`; None when a decoding raises. */
  function SelectBody(msg: Message, codec: Codec): (r: Option<string>)
    ensures msg.Single? ==> r == DecodePart(msg.part, codec)
    ensures msg.Multipart? && r.Some? && r.value != "" ==>
      exists i | 0 <= i < |msg.parts| ::
        (IsHtml(msg.parts[i]) || IsPlain(msg.parts[i])) && DecodePart(msg.parts[i], codec) == r
    ensures msg.Multipart? && (forall i | 0 <= i < |msg.parts| :: !IsHtml(msg.parts[i]) && !IsPlain(msg.parts[i])) ==>
      r == Some("")
  {
    match msg
    case Single(p) => DecodePart(p, codec)
    case Multipart(parts) => WalkBody(parts, "", codec)
  }

  /** The loop of `get_email_body`, with its early return for HTML. */
  method GetEmailBody(msg: Message, codec: Codec) returns (r: Option<string>)
    ensures r == SelectBody(msg, codec)
    ensures msg.Single? ==> r == DecodePart(msg.part, codec)
  {
    var body := "";
    if msg.Multipart? {
      var parts := msg.parts;
      for i := 0 to |parts|
        invariant WalkBody(parts, "", codec) == WalkBody(parts[i..], body, codec)
      {
        var part := parts[i];
        assert parts[i..][0] == part && parts[i..][1..] == parts[i + 1..];
        if !IsAttachment(part) {
          if part.contentType == "text/html" {
            return DecodePart(part, codec);
          } else if part.contentType == "text/plain" && body == "" {
            var decoded := DecodePart(part, codec);
            if decoded.None? {
              return None;
            }
            body := decoded.value;
          }
        }
      }
      assert parts[|parts|..] == [];
    } else {
      var decoded := DecodePart(msg.part, codec);
      if decoded.None? {
        return None;
      }
      body := decoded.value;
    }
    r := Some(body);
  }

  /** No part before position `k` is a non-attachment HTML part. */
  ghost predicate NoHtmlBefore(parts: seq<Part>, k: int)
    requires 0 <= k <= |parts|
  {
    forall j | 0 <= j < k :: !IsHtml(parts[j])
  }

  /** Every non-attachment plain part before position `k` decodes to "". */
  ghost predicate EmptyPlainBefore(parts: seq<Part>, k: int, codec: Codec)
    requires 0 <= k <= |parts|
  {
    forall j | 0 <= j < k :: IsPlain(parts[j]) ==> DecodePart(parts[j], codec) == Some("")
  }

  /** Once the accumulator holds text, plain parts never replace it: only an HTML part can. */
  lemma {:induction false} NonEmptyBodyKept(parts: seq<Part>, body: string, codec: Codec)
    requires body != "" && NoHtmlBefore(parts, |parts|)
    ensures WalkBody(parts, body, codec) == Some(body)
    decreases |parts|
  {
    if parts != [] {
      NonEmptyBodyKept(parts[1..], body, codec);
    }
  }

  /**
    The first non-attachment HTML part wins, even after plain parts: the
    result is its decoding unless an earlier plain part's decoding raised.
   */
  lemma {:induction false} HtmlPreferred(parts: seq<Part>, i: nat, body: string, codec: Codec)
    requires i < |parts| && IsHtml(parts[i]) && NoHtmlBefore(parts, i)
    ensures WalkBody(parts, body, codec) == DecodePart(parts[i], codec) || WalkBody(parts, body, codec) == None
    ensures (forall j | 0 <= j < i :: IsPlain(parts[j]) ==> DecodePart(parts[j], codec).Some?) ==>
      WalkBody(parts, body, codec) == DecodePart(parts[i], codec)
    decreases i
  {
    if i > 0 {
      var p := parts[0];
      var rest := parts[1..];
      assert NoHtmlBefore(rest, i - 1) by {
        forall j | 0 <= j < i - 1 ensures !IsHtml(rest[j]) {
          assert rest[j] == parts[j + 1];
        }
      }
      assert !IsHtml(p) by { assert p == parts[0]; }
      if IsPlain(p) && body == "" {
        match DecodePart(p, codec)
        case None =>
        case Some(b) =>
          HtmlPreferred(rest, i - 1, b, codec);
          if forall j | 0 <= j < i :: IsPlain(parts[j]) ==> DecodePart(parts[j], codec).Some? {
            forall j | 0 <= j < i - 1 && IsPlain(rest[j]) ensures DecodePart(rest[j], codec).Some? {
              assert rest[j] == parts[j + 1];
            }
          }
      } else {
        HtmlPreferred(rest, i - 1, body, codec);
        if forall j | 0 <= j < i :: IsPlain(parts[j]) ==> DecodePart(parts[j], codec).Some? {
          forall j | 0 <= j < i - 1 && IsPlain(rest[j]) ensures DecodePart(rest[j], codec).Some? {
            assert rest[j] == parts[j + 1];
          }
        }
      }
    }
  }

  /**
    Without an HTML part the body is "" exactly when every plain part decodes
    to "" (or there is none); otherwise the first plain part whose decoding is
    not "" decides: its text, or None when that decoding raised.
   */
  lemma {:induction false} PlainFallback(parts: seq<Part>, codec: Codec)
    requires NoHtmlBefore(parts, |parts|)
    ensures WalkBody(parts, "", codec) == Some("") <==> EmptyPlainBefore(parts, |parts|, codec)
    ensures forall k | 0 <= k < |parts| && IsPlain(parts[k]) && EmptyPlainBefore(parts, k, codec) &&
      DecodePart(parts[k], codec) != Some("") :: WalkBody(parts, "", codec) == DecodePart(parts[k], codec)
    decreases |parts|
  {
    if parts != [] {
      var p := parts[0];
      var rest := parts[1..];
      assert NoHtmlBefore(rest, |rest|) by {
        forall j | 0 <= j < |rest| ensures !IsHtml(rest[j]) {
          assert rest[j] == parts[j + 1];
        }
      }
      PlainFallback(rest, codec);
      var d := DecodePart(p, codec);
      if IsPlain(p) && d != Some("") {
        if d.Some? {
          NonEmptyBodyKept(rest, d.value, codec);
        }
        assert !EmptyPlainBefore(parts, |parts|, codec);
      } else {
        assert WalkBody(parts, "", codec) == WalkBody(rest, "", codec);
        assert EmptyPlainBefore(parts, |parts|, codec) <==> EmptyPlainBefore(rest, |rest|, codec) by {
          if EmptyPlainBefore(rest, |rest|, codec) {
            forall j | 0 <= j < |parts| && IsPlain(parts[j]) ensures DecodePart(parts[j], codec) == Some("") {
              if j > 0 { assert parts[j] == rest[j - 1]; }
            }
          }
          if EmptyPlainBefore(parts, |parts|, codec) {
            forall j | 0 <= j < |rest| && IsPlain(rest[j]) ensures DecodePart(rest[j], codec) == Some("") {
              assert rest[j] == parts[j + 1];
            }
          }
        }
        forall k | 0 <= k < |parts| && IsPlain(parts[k]) && EmptyPlainBefore(parts, k, codec) &&
          DecodePart(parts[k], codec) != Some("")
          ensures WalkBody(parts, "", codec) == DecodePart(parts[k], codec)
        {
          assert k > 0;
          assert rest[k - 1] == parts[k];
          assert EmptyPlainBefore(rest, k - 1, codec) by {
            forall j | 0 <= j < k - 1 && IsPlain(rest[j]) ensures DecodePart(rest[j], codec) == Some("") {
              assert rest[j] == parts[j + 1];
            }
          }
        }
      }
    }
  }

  /** Inserting an attachment anywhere in the walk never changes the body. */
  lemma {:induction false} AttachmentIgnored(parts: seq<Part>, k: nat, a: Part, body: string, codec: Codec)
    requires k <= |parts| && IsAttachment(a)
    ensures WalkBody(parts[..k] + [a] + parts[k..], body, codec) == WalkBody(parts, body, codec)
    decreases k
  {
    var withA := parts[..k] + [a] + parts[k..];
    if k == 0 {
      assert withA[1..] == parts;
    } else {
      assert withA[0] == parts[0];
      assert withA[1..] == parts[1..][..k - 1] + [a] + parts[1..][k - 1..];
      var p := parts[0];
      if IsPlain(p) && body == "" && DecodePart(p, codec).Some? {
        AttachmentIgnored(parts[1..], k - 1, a, DecodePart(p, codec).value, codec);
      } else {
        AttachmentIgnored(parts[1..], k - 1, a, body, codec);
      }
    }
  }
}
