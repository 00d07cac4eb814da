/** The credentials that come with the root packet: a public key and a hexadecimal signature of the root. */
module Credentials {
  import opened Wire

  predicate IsHexDigit(c: char) {
    '0' <= c <= '9' || 'a' <= c <= 'f' || 'A' <= c <= 'F'
  }

  function HexValue(c: char): (v: nat)
    requires IsHexDigit(c)
    ensures v < 16
  {
    if c <= '9' then c as int - '0' as int
    else if c <= 'F' then c as int - 'A' as int + 10
    else c as int - 'a' as int + 10
  }

  function HexDigit(v: nat): (c: char)
    requires v < 16
    ensures IsHexDigit(c) && HexValue(c) == v
  {
    "0123456789abcdef"[v]
  }

  /** Two digits of either case a byte, and nothing else. */
  function DecodeHex(s: string): Option<seq<nat>> {
    if s == "" then Some([])
    else if |s| < 2 || !IsHexDigit(s[0]) || !IsHexDigit(s[1]) || DecodeHex(s[2..]).None? then None
    else Some([16 * HexValue(s[0]) + HexValue(s[1])] + DecodeHex(s[2..]).value)
  }

  /** `%x` of a byte slice. */
  function EncodeHex(bytes: seq<nat>): string
    requires forall i :: 0 <= i < |bytes| ==> bytes[i] < 256
  {
    if bytes == [] then "" else [HexDigit(bytes[0] / 16), HexDigit(bytes[0] % 16)] + EncodeHex(bytes[1..])
  }

  /** The signature an upload prints is the one a download reads. */
  lemma {:induction false} HexRoundTrip(bytes: seq<nat>)
    requires forall i :: 0 <= i < |bytes| ==> bytes[i] < 256
    ensures DecodeHex(EncodeHex(bytes)) == Some(bytes)
  {
    hide HexValue, HexDigit;
    if bytes != [] {
      HexRoundTrip(bytes[1..]);
      var s := EncodeHex(bytes);
      assert s[2..] == EncodeHex(bytes[1..]);
      assert 16 * HexValue(s[0]) + HexValue(s[1]) == bytes[0];
      assert [bytes[0]] + bytes[1..] == bytes;
    }
  }

  /** It is printed as two digits a byte, in lower case. */
  lemma {:induction false} PrintedHex(bytes: seq<nat>)
    requires forall i :: 0 <= i < |bytes| ==> bytes[i] < 256
    ensures |EncodeHex(bytes)| == 2 * |bytes|
    ensures forall i :: 0 <= i < |EncodeHex(bytes)| ==>
      '0' <= EncodeHex(bytes)[i] <= '9' || 'a' <= EncodeHex(bytes)[i] <= 'f'
  {
    if bytes != [] {
      PrintedHex(bytes[1..]);
      var s := EncodeHex(bytes);
      assert forall i :: 2 <= i < |s| ==> s[i] == EncodeHex(bytes[1..])[i - 2];
    }
  }

  /** The decoder accepts exactly an even number of hexadecimal digits. */
  lemma {:induction false} DecodesExactly(s: string)
    ensures DecodeHex(s).Some? <==> |s| % 2 == 0 && forall i :: 0 <= i < |s| ==> IsHexDigit(s[i])
  {
    if |s| >= 2 {
      DecodesExactly(s[2..]);
      assert forall i :: 2 <= i < |s| ==> s[i] == s[2..][i - 2];
    }
  }

  /** The first thing wrong with the credentials. */
  function CredentialFaultOf(lib: Library, root: string, publicKey: string,
                             signature: string): Option<CredentialFault>
  {
    if !lib.parsesKey(publicKey) then Some(BadPublicKey)
    else if DecodeHex(signature).None? then Some(BadHex)
    else if !lib.parsesSignature(DecodeHex(signature).value) then Some(BadSignature)
    else if !lib.signs(publicKey, DecodeHex(signature).value, root) then Some(WrongSignature)
    else None
  }

  predicate Authentic(lib: Library, root: string, publicKey: string, signature: string) {
    CredentialFaultOf(lib, root, publicKey, signature).None?
  }

  /** The digits are read in either case. */
  lemma HexDigits(c: char)
    requires IsHexDigit(c)
    ensures "0123456789abcdef"[HexValue(c)] == c || "0123456789ABCDEF"[HexValue(c)] == c
  {
  }

  /** Each byte is read off two digits, the more significant first. */
  lemma {:induction false} DecodedBytes(s: string, bytes: seq<nat>)
    requires DecodeHex(s) == Some(bytes)
    ensures |s| == 2 * |bytes| && forall i :: 0 <= i < |s| ==> IsHexDigit(s[i])
    ensures forall i :: 0 <= i < |bytes| ==> bytes[i] == 16 * HexValue(s[2 * i]) + HexValue(s[2 * i + 1])
  {
    hide HexValue;
    if s != "" {
      DecodedBytes(s[2..], bytes[1..]);
      forall i | 0 <= i < |s|
        ensures IsHexDigit(s[i])
      {
        assert i >= 2 ==> s[i] == s[2..][i - 2];
      }
      forall i | 0 <= i < |bytes|
        ensures bytes[i] == 16 * HexValue(s[2 * i]) + HexValue(s[2 * i + 1])
      {
        if i > 0 {
          assert bytes[i] == bytes[1..][i - 1];
          assert s[2 * i] == s[2..][2 * (i - 1)] && s[2 * i + 1] == s[2..][2 * (i - 1) + 1];
        }
      }
    }
  }

  /** The signature text spells bytes that parse as a signature, and with this key they sign the root. */
  predicate SignsRoot(lib: Library, root: string, publicKey: string, signature: string, bytes: seq<nat>) {
    DecodeHex(signature) == Some(bytes) && lib.parsesSignature(bytes) && lib.signs(publicKey, bytes, root)
  }

  /** Credentials are authentic exactly if the key parses and the signature is one of the root under that key. */
  lemma AuthenticExactly(lib: Library, root: string, publicKey: string, signature: string)
    ensures Authentic(lib, root, publicKey, signature) <==>
      lib.parsesKey(publicKey) && exists bytes :: SignsRoot(lib, root, publicKey, signature, bytes)
  {
    hide DecodeHex;
    if Authentic(lib, root, publicKey, signature) {
      assert SignsRoot(lib, root, publicKey, signature, DecodeHex(signature).value);
    }
  }

  /** The cause named is the first of key, hexadecimal text, signature and signing that fails. */
  lemma CauseExactly(lib: Library, root: string, publicKey: string, signature: string)
    ensures var cause := CredentialFaultOf(lib, root, publicKey, signature);
      var key, text := lib.parsesKey(publicKey), DecodeHex(signature);
      && (cause == Some(BadPublicKey) <==> !key)
      && (cause == Some(BadHex) <==> key && text.None?)
      && (cause == Some(BadSignature) <==> key && text.Some? && !lib.parsesSignature(text.value))
      && (cause == Some(WrongSignature) <==>
        key && text.Some? && lib.parsesSignature(text.value) && !lib.signs(publicKey, text.value, root))
  {
    hide DecodeHex;
  }
}
