/**
 * generateShareLink() of explorer.php: a random 16-byte token, written as 32 lower-case
 * hex digits, keys a share record in shares.json; the record expires a day later.
 */
module Shares {
  import opened Tree

  const ShareLifetime: int := 24 * 3600
  const ShareUrl: string := "http://34.47.127.51/selfhostedgdrive/share.php?token="
  const HexDigits: string := "0123456789abcdef"

  datatype ShareRecord = ShareRecord(username: string, file: string, token: string, expiry: int)

  /** shares.json: absent, not a non-empty JSON object, or the records by token. */
  datatype SharesFile = Missing | Unreadable | Records(shares: map<string, ShareRecord>)

  /** `json_decode(...) ?: []`: whatever does not decode to records counts as no records. */
  function Current(f: SharesFile): map<string, ShareRecord>
  {
    if f.Records? then f.shares else map[]
  }

  predicate IsHexDigit(c: char)
  {
    c in HexDigits
  }

  /** `bin2hex`: two lower-case hex digits per byte, high nibble first. */
  function Hex(b: seq<byte>): (s: string)
    ensures |s| == 2 * |b|
    ensures forall i :: 0 <= i < |s| ==> IsHexDigit(s[i])
  {
    if b == [] then ""
    else [HexDigits[b[0] as int / 16], HexDigits[b[0] as int % 16]] + Hex(b[1..])
  }

  function DigitValue(c: char): (v: nat)
    ensures v < 16
  {
    if '0' <= c <= '9' then c as int - '0' as int
    else if 'a' <= c <= 'f' then c as int - 'a' as int + 10
    else 0
  }

  /** The byte two hex digits stand for, high digit first. */
  function ByteOf(hi: char, lo: char): byte
  {
    (DigitValue(hi) * 16 + DigitValue(lo)) as byte
  }

  /** Reading the token back into the bytes it was made from. */
  function Unhex(s: string): seq<byte>
    requires |s| % 2 == 0
  {
    if s == "" then []
    else [ByteOf(s[0], s[1])] + Unhex(s[2..])
  }

  lemma DigitValueOf(n: nat)
    requires n < 16
    ensures DigitValue(HexDigits[n]) == n
  {
  }

  /** The two digits of one byte give the byte back. */
  lemma ByteDigits(x: byte)
    ensures ByteOf(HexDigits[x as int / 16], HexDigits[x as int % 16]) == x
  {
    var hi, lo := x as int / 16, x as int % 16;
    DigitValueOf(hi);
    DigitValueOf(lo);
    assert hi * 16 + lo == x as int;
  }

  /** `bin2hex` loses nothing: the bytes come back from the digits, so distinct random draws give distinct tokens. */
  lemma {:induction false} HexRoundTrip(b: seq<byte>)
    ensures Unhex(Hex(b)) == b
  {
    if b != [] {
      var hi, lo := HexDigits[b[0] as int / 16], HexDigits[b[0] as int % 16];
      assert Hex(b) == [hi, lo] + Hex(b[1..]);
      UnhexCons(hi, lo, Hex(b[1..]));
      ByteDigits(b[0]);
      HexRoundTrip(b[1..]);
      assert b == [b[0]] + b[1..];
    }
  }

  lemma UnhexCons(hi: char, lo: char, rest: string)
    requires |rest| % 2 == 0
    ensures Unhex([hi, lo] + rest) == [ByteOf(hi, lo)] + Unhex(rest)
  {
    var s := [hi, lo] + rest;
    assert s[0] == hi && s[1] == lo && s[2..] == rest;
  }

  lemma HexInjective(a: seq<byte>, b: seq<byte>)
    requires Hex(a) == Hex(b)
    ensures a == b
  {
    HexRoundTrip(a);
    HexRoundTrip(b);
  }

  class ShareRegistry {
    var file: SharesFile

    constructor(file: SharesFile)
      ensures this.file == file
    {
      this.file := file;
    }

    /**
     * One share: the token from the 16 random bytes, a record for
     * `currentRel/fileName` expiring `ShareLifetime` seconds after `now`, stored under
     * the token, and the link that carries the token.
     */
    method GenerateShareLink(fileName: string, username: string, currentRel: string, random: seq<byte>, now: int)
      returns (link: string)
      requires |random| == 16
      modifies this
      ensures var token := Hex(random);
        file == Records(Current(old(file))[token := ShareRecord(username, currentRel + "/" + fileName, token, now + ShareLifetime)]) &&
        link == ShareUrl + token
      ensures |link| == |ShareUrl| + 32 && link[|ShareUrl|..] == Hex(random)
      ensures file.shares.Keys == Current(old(file)).Keys + {Hex(random)}
      ensures forall t :: t in Current(old(file)) && t != Hex(random) ==> file.shares[t] == Current(old(file))[t]
    {
      var token := Hex(random);
      var expiry := now + ShareLifetime;
      var shareData := ShareRecord(username, currentRel + "/" + fileName, token, expiry);
      if file.Missing? {
        file := Records(map[]);
      }
      var shares := Current(file);
      shares := shares[token := shareData];
      file := Records(shares);
      link := ShareUrl + token;
    }
  }

  /** The link names its own record: the token after the URL prefix keys the record just written. */
  lemma LinkFindsRecord(old_: SharesFile, fileName: string, username: string, currentRel: string, random: seq<byte>, now: int)
    ensures var token := Hex(random);
      var shares := Current(old_)[token := ShareRecord(username, currentRel + "/" + fileName, token, now + ShareLifetime)];
      var link := ShareUrl + token;
      link[|ShareUrl|..] in shares &&
      shares[link[|ShareUrl|..]].file == currentRel + "/" + fileName &&
      shares[link[|ShareUrl|..]].expiry == now + ShareLifetime
  {
    var token := Hex(random);
    assert (ShareUrl + token)[|ShareUrl|..] == token;
  }
}
