/**
 * The ETag wire codec: a 5-character salt and a 43-character truncated
 * Base64 digest, laid out as `"` + digest[0..22] + salt + digest[22..43] + `"`.
 */
module ETagCodec {

  import opened Wrappers

  /** Digest characters placed before the salt. */
  const HeadLen: nat := 22
  /** Characters in a salt. */
  const SaltLen: nat := 5
  /** Digest characters placed after the salt. */
  const TailLen: nat := 21
  /** Characters of the truncated digest carried in the tag. */
  const DigestLen: nat := HeadLen + TailLen
  /** Characters between the two delimiters. */
  const BodyLen: nat := HeadLen + SaltLen + TailLen
  /** Characters of the whole tag, delimiters included. */
  const WireLen: nat := BodyLen + 2

  const Quote: char := '"'

  /**
   * The characters a salt may be drawn from: one string literal in the
   * source, written here as its four runs (letters, capitals, digits, symbols).
   */
  const CharList: string := Lower + Upper + Digits + Symbols

  const Lower: string := "abcdefghijklmnopqrstuvwxyz"
  const Upper: string := "ABCDEFGHIJKLMNOPQRSTUVWXYZ"
  const Digits: string := "0123456789"
  const Symbols: string := "`~!@#$%^&*()_+{}|:<>?-=[];',./"

  /** A salt as the issuer draws it: five characters of `CharList`. */
  predicate IsSalt(s: string)
    ensures IsSalt(s) ==> forall i :: 0 <= i < |s| ==> SafeInQuotes(s[i])
  {
    CharListShape();
    |s| == SaltLen && forall i :: 0 <= i < |s| ==> s[i] in CharList
  }

  /** What a tag carries: the salt and the truncated digest, reassembled. */
  datatype Token = Token(salt: string, digest: string)

  /** The quoted tag for `salt` and the (at least 43-character) Base64 digest `hash`. */
  function Encode(salt: string, hash: string): (tag: string)
    requires |hash| >= DigestLen
    ensures |tag| == |salt| + DigestLen + 2
    ensures |tag| == WireLen <==> |salt| == SaltLen
    ensures tag[0] == Quote && tag[|tag| - 1] == Quote
  {
    [Quote] + hash[..HeadLen] + salt + hash[HeadLen..DigestLen] + [Quote]
  }

  /** The characters between the delimiter positions of a 50-character tag. */
  function Body(tag: string): (body: string)
    requires |tag| == WireLen
    ensures |body| == BodyLen
  {
    tag[1..1 + BodyLen]
  }

  /** A slice of the body is the same slice of the tag, one position further on. */
  lemma BodySlice(tag: string, i: nat, j: nat)
    requires |tag| == WireLen && i <= j <= BodyLen
    ensures Body(tag)[i..j] == tag[1 + i..1 + j]
  {
    assert forall k :: i <= k < j ==> Body(tag)[k] == tag[1 + k];
  }

  /**
   * Splits a tag into salt and digest; a tag of any length but 50 is refused.
   * The first and last characters are skipped without being looked at.
   */
  function Decode(tag: string): (r: Option<Token>)
    ensures r.Some? <==> |tag| == WireLen
    ensures r.Some? ==> |r.value.salt| == SaltLen && |r.value.digest| == DigestLen
  {
    if |tag| != WireLen then None
    else
      var body := Body(tag);
      Some(Token(body[HeadLen..HeadLen + SaltLen], body[..HeadLen] + body[HeadLen + SaltLen..]))
  }

  /**
   * In the tag's own positions, counting from 0: the salt is characters 23
   * to 27 and the digest is characters 1 to 22 followed by 28 to 48.
   */
  lemma DecodeSlices(tag: string)
    requires |tag| == WireLen
    ensures Decode(tag).value.salt == tag[1 + HeadLen..1 + HeadLen + SaltLen]
    ensures Decode(tag).value.digest == tag[1..1 + HeadLen] + tag[1 + HeadLen + SaltLen..WireLen - 1]
  {
  }

  /** Decoding an encoded tag gives back the salt and the first 43 digest characters. */
  lemma DecodeEncode(salt: string, hash: string)
    requires |salt| == SaltLen && |hash| >= DigestLen
    ensures Decode(Encode(salt, hash)) == Some(Token(salt, hash[..DigestLen]))
  {
    var tag := Encode(salt, hash);
    var body := Body(tag);
    assert body == hash[..HeadLen] + salt + hash[HeadLen..DigestLen];
    assert body[HeadLen..HeadLen + SaltLen] == salt;
    assert body[..HeadLen] == hash[..HeadLen];
    assert body[HeadLen + SaltLen..] == hash[HeadLen..DigestLen];
    assert hash[..HeadLen] + hash[HeadLen..DigestLen] == hash[..DigestLen];
  }

  /**
   * Re-encoding what a tag decodes to reproduces its body, and the whole tag
   * when it is delimited by quotes.
   */
  lemma EncodeDecode(tag: string)
    requires Decode(tag).Some?
    ensures Body(Encode(Decode(tag).value.salt, Decode(tag).value.digest)) == Body(tag)
    ensures tag[0] == Quote && tag[WireLen - 1] == Quote ==>
              Encode(Decode(tag).value.salt, Decode(tag).value.digest) == tag
  {
  }

  /** Two 50-character tags that differ at most in their first and last characters decode alike. */
  lemma DecodeIgnoresDelimiters(t1: string, t2: string)
    requires |t1| == WireLen && |t2| == WireLen
    requires t1[1..WireLen - 1] == t2[1..WireLen - 1]
    ensures Decode(t1) == Decode(t2)
  {
  }

  /** A printable ASCII character other than space, the quote and the backslash. */
  predicate SafeInQuotes(c: char) {
    '!' <= c <= '~' && c != Quote && c != '\\'
  }

  // Facts about each run of the alphabet, kept apart so that each stays small.

  lemma LowerShape()
    ensures |Lower| == 26
    ensures forall i :: 0 <= i < |Lower| ==> 'a' <= Lower[i] <= 'z'
  {
  }

  lemma UpperShape()
    ensures |Upper| == 26
    ensures forall i :: 0 <= i < |Upper| ==> 'A' <= Upper[i] <= 'Z'
  {
  }

  lemma DigitsShape()
    ensures |Digits| == 10
    ensures forall i :: 0 <= i < |Digits| ==> '0' <= Digits[i] <= '9'
  {
  }

  lemma SymbolsShape()
    ensures |Symbols| == 30
    ensures forall i :: 0 <= i < |Symbols| ==> SafeInQuotes(Symbols[i])
  {
  }

  /**
   * The alphabet has 92 characters, each printable ASCII and none of them a
   * space, a quote or a backslash.
   */
  lemma CharListShape()
    ensures |CharList| == 92
    ensures forall i :: 0 <= i < |CharList| ==> SafeInQuotes(CharList[i])
    ensures Quote !in CharList && '\\' !in CharList && ' ' !in CharList
  {
    LowerShape();
    UpperShape();
    DigitsShape();
    SymbolsShape();
    forall i | 0 <= i < |CharList|
      ensures SafeInQuotes(CharList[i])
    {
      CharListAt(i);
    }
  }

  /** Where position `i` of the alphabet comes from. */
  lemma CharListAt(i: nat)
    requires i < |CharList|
    ensures i < 26 ==> CharList[i] == Lower[i]
    ensures 26 <= i < 52 ==> CharList[i] == Upper[i - 26]
    ensures 52 <= i < 62 ==> CharList[i] == Digits[i - 52]
    ensures 62 <= i ==> CharList[i] == Symbols[i - 62]
  {
  }

  /** A salt drawn from the alphabet never contains the tag's delimiter. */
  lemma SaltIsQuoteFree(s: string)
    requires IsSalt(s)
    ensures Quote !in s
  {
    CharListShape();
  }
}
