/** Conversions between MQTT payload bytes and the Arduino `String` values the
    firmware compares and publishes. */
module Payload {

  /** One byte of a payload. */
  type Byte = b: int | 0 <= b < 256

  /** Size of the `char copy[50]` buffer a state is copied into before publishing. */
  const MSG_BUFFER: nat := 50

  /** Text whose every character is a non-NUL byte value: what a `String` built
      byte by byte can hold. */
  predicate IsByteText(s: string) {
    forall i :: 0 <= i < |s| ==> 0 < s[i] as int < 256
  }

  /** The `String` that `String((char)b)` holds. Arduino builds it from a
      NUL-terminated two-character buffer, so a zero byte gives the empty string. */
  function CharText(b: Byte): string {
    if b == 0 then "" else [b as char]
  }

  /** The text `callback` accumulates in `res`, one byte after the other. */
  function PayloadText(p: seq<Byte>): (s: string)
    ensures |s| <= |p|
    ensures IsByteText(s)
  {
    if p == [] then "" else PayloadText(p[..|p| - 1]) + CharText(p[|p| - 1])
  }

  /** The payload with its zero bytes removed. */
  function NonZero(p: seq<Byte>): seq<Byte> {
    if p == [] then [] else NonZero(p[..|p| - 1]) + (if p[|p| - 1] == 0 then [] else [p[|p| - 1]])
  }

  /** How a publisher puts a command string on the wire: one byte per character. */
  function Encode(s: string): (p: seq<Byte>)
    requires IsByteText(s)
    ensures |p| == |s|
  {
    if s == "" then [] else Encode(s[..|s| - 1]) + [s[|s| - 1] as int]
  }

  /** Decoding a payload recovers any text a publisher sends. */
  lemma {:induction false} TextOfEncode(s: string)
    requires IsByteText(s)
    ensures PayloadText(Encode(s)) == s
  {
    if s != "" {
      var init := s[..|s| - 1];
      assert IsByteText(init) by {
        forall i | 0 <= i < |init| ensures 0 < init[i] as int < 256 {
          assert init[i] == s[i];
        }
      }
      TextOfEncode(init);
      var p := Encode(s);
      assert p[..|p| - 1] == Encode(init);
      assert p[|p| - 1] == s[|s| - 1] as int;
    }
  }

  /** Encoding the decoded text gives back the payload, less its zero bytes:
      the loop keeps every other byte, in order. */
  lemma {:induction false} EncodeOfText(p: seq<Byte>)
    ensures Encode(PayloadText(p)) == NonZero(p)
  {
    if p != [] {
      var init := p[..|p| - 1];
      EncodeOfText(init);
      var s := PayloadText(p);
      var b := p[|p| - 1];
      if b != 0 {
        assert s == PayloadText(init) + [b as char];
        assert s[..|s| - 1] == PayloadText(init);
      } else {
        assert s == PayloadText(init);
      }
    }
  }

  /** The loop at the head of `callback`: starts from the empty `String` and
      appends the one-character text of each payload byte in turn. */
  method PayloadToString(payload: seq<Byte>) returns (res: string)
    ensures res == PayloadText(payload)
  {
    res := "";
    var i := 0;
    while i < |payload|
      invariant 0 <= i <= |payload|
      invariant res == PayloadText(payload[..i])
    {
      assert payload[..i + 1][..i] == payload[..i];
      res := res + CharText(payload[i]);
      i := i + 1;
    }
    assert payload[..|payload|] == payload;
  }

  /** `toCharArray(copy, 50)`: at most 49 characters are copied, then a NUL;
      publishing the buffer sends the characters before that NUL. */
  function CopyToBuffer(s: string): (c: string)
    ensures |c| < MSG_BUFFER
    ensures c <= s
    ensures |s| < MSG_BUFFER ==> c == s
    ensures |s| >= MSG_BUFFER ==> |c| == MSG_BUFFER - 1
  {
    if |s| < MSG_BUFFER then s else s[..MSG_BUFFER - 1]
  }
}
