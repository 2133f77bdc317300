/**
 * The validator engine: the client-address rule, the digest over
 * `ip ++ salt ++ value`, issuing a tag for a context, and checking an
 * incoming `If-Modified-Since` / `If-None-Match` pair against it.
 */
module Validator {

  import opened Wrappers
  import opened Crypto
  import opened ETagCodec

  /**
   * The address text mixed into the digest: the remote address when binding
   * to it was asked for and the connection has one, the empty string otherwise.
   */
  function ClientAddress(withIP: bool, remoteAddress: Option<string>): (ip: string)
    ensures ip != "" ==> withIP && remoteAddress == Some(ip)
    ensures withIP && remoteAddress.Some? ==> ip == remoteAddress.value
  {
    if withIP then
      match remoteAddress
      case Some(a) => a
      case None => ""
    else ""
  }

  /** The text whose hash is carried in a tag. */
  function HashInput(ip: string, salt: string, value: string): (s: string)
    ensures |s| == |ip| + |salt| + |value|
    ensures s[..|ip|] == ip && s[|ip|..|ip| + |salt|] == salt && s[|ip| + |salt|..] == value
  {
    ip + salt + value
  }

  /** The first 43 characters of the Base64 digest of `s`: what a tag carries. */
  function TruncatedDigest(p: Primitives, s: string): (d: string)
    requires p.WellFormed()
    ensures |d| == DigestLen
  {
    HashText(p, s)[..DigestLen]
  }

  /** The tag issued for context `(ip, value)` with the salt `salt`. */
  function IssueETag(p: Primitives, ip: string, salt: string, value: string): (tag: string)
    requires p.WellFormed()
    ensures |tag| == |salt| + DigestLen + 2
    ensures |tag| == WireLen <==> |salt| == SaltLen
    ensures tag[0] == Quote && tag[|tag| - 1] == Quote
  {
    Encode(salt, HashText(p, HashInput(ip, salt, value)))
  }

  /**
   * The checks made before any hashing: one value of each header, a tag of
   * exactly 50 characters, and an `If-Modified-Since` equal to the epoch.
   */
  predicate Guard(ifModifiedSince: seq<string>, ifNoneMatch: seq<string>, epoch: string)
    ensures Guard(ifModifiedSince, ifNoneMatch, epoch) ==> |ifNoneMatch| == 1 && Decode(ifNoneMatch[0]).Some?
  {
    && |ifNoneMatch| == 1
    && |ifModifiedSince| == 1
    && |ifNoneMatch[0]| == WireLen
    && ifModifiedSince[0] == epoch
  }

  /**
   * Whether the client's cached copy is still valid: the guard holds and the
   * digest recomputed from the tag's own salt equals the digest in the tag.
   */
  function Verify(p: Primitives, ip: string, value: string, epoch: string,
                  ifModifiedSince: seq<string>, ifNoneMatch: seq<string>): (valid: bool)
    requires p.WellFormed()
    ensures valid ==> Guard(ifModifiedSince, ifNoneMatch, epoch)
  {
    if Guard(ifModifiedSince, ifNoneMatch, epoch) then
      var t := Decode(ifNoneMatch[0]).value;
      t.digest == TruncatedDigest(p, HashInput(ip, t.salt, value))
    else
      false
  }

  /**
   * A request is accepted exactly when the guard holds and the tag's body is
   * the body of the tag this server issues for the same context and the salt
   * the tag carries.
   */
  lemma VerifyCharacterization(p: Primitives, ip: string, value: string, epoch: string,
                               ifModifiedSince: seq<string>, ifNoneMatch: seq<string>)
    requires p.WellFormed()
    ensures Verify(p, ip, value, epoch, ifModifiedSince, ifNoneMatch) <==>
              && Guard(ifModifiedSince, ifNoneMatch, epoch)
              && var tag := ifNoneMatch[0];
                 var salt := Decode(tag).value.salt;
                 Body(IssueETag(p, ip, salt, value)) == Body(tag)
  {
  }

  /**
   * Round trip: a tag issued for `(ip, value)`, sent back together with the
   * epoch as `If-Modified-Since`, is accepted for the same context.
   */
  lemma IssuedETagVerifies(p: Primitives, ip: string, salt: string, value: string, epoch: string)
    requires p.WellFormed() && |salt| == SaltLen
    ensures Verify(p, ip, value, epoch, [epoch], [IssueETag(p, ip, salt, value)])
  {
    var hash := HashText(p, HashInput(ip, salt, value));
    DecodeEncode(salt, hash);
  }

  /**
   * Whatever the hash primitives are, a request that fails the guard is
   * refused: the verdict does not depend on any digest.
   */
  lemma GuardFailureSkipsHashing(p1: Primitives, p2: Primitives, ip: string, value: string, epoch: string,
                                 ifModifiedSince: seq<string>, ifNoneMatch: seq<string>)
    requires p1.WellFormed() && p2.WellFormed()
    requires !Guard(ifModifiedSince, ifNoneMatch, epoch)
    ensures !Verify(p1, ip, value, epoch, ifModifiedSince, ifNoneMatch)
    ensures Verify(p1, ip, value, epoch, ifModifiedSince, ifNoneMatch)
              == Verify(p2, ip, value, epoch, ifModifiedSince, ifNoneMatch)
  {
  }

  /** The verdict does not depend on the first and last characters of the tag. */
  lemma VerifyIgnoresDelimiters(p: Primitives, ip: string, value: string, epoch: string,
                                ifModifiedSince: seq<string>, t1: string, t2: string)
    requires p.WellFormed()
    requires |t1| == WireLen && |t2| == WireLen && t1[1..WireLen - 1] == t2[1..WireLen - 1]
    ensures Verify(p, ip, value, epoch, ifModifiedSince, [t1])
              == Verify(p, ip, value, epoch, ifModifiedSince, [t2])
  {
  }

  /** A tag accepted under one epoch is refused under any other. */
  lemma EpochSensitivity(p: Primitives, ip: string, value: string, epoch: string, newEpoch: string,
                         ifModifiedSince: seq<string>, ifNoneMatch: seq<string>)
    requires p.WellFormed() && newEpoch != epoch
    requires Verify(p, ip, value, epoch, ifModifiedSince, ifNoneMatch)
    ensures !Verify(p, ip, value, newEpoch, ifModifiedSince, ifNoneMatch)
  {
  }

  /**
   * Changing one character of the digest part of an accepted tag makes it
   * refused, whatever the hash primitives are.
   */
  lemma DigestTamperDetected(p: Primitives, ip: string, value: string, epoch: string,
                             ifModifiedSince: seq<string>, tag: string, k: nat, c: char)
    requires p.WellFormed()
    requires Verify(p, ip, value, epoch, ifModifiedSince, [tag])
    requires 1 <= k < 1 + HeadLen || 1 + HeadLen + SaltLen <= k < WireLen - 1
    requires c != tag[k]
    ensures !Verify(p, ip, value, epoch, ifModifiedSince, [tag[k := c]])
  {
    var forged := tag[k := c];
    var t, f := Decode(tag).value, Decode(forged).value;
    assert f.salt == t.salt by {
      assert Body(forged)[HeadLen..HeadLen + SaltLen] == Body(tag)[HeadLen..HeadLen + SaltLen];
    }
    if k < 1 + HeadLen {
      assert f.digest[k - 1] == c != tag[k] == t.digest[k - 1];
    } else {
      assert f.digest[k - 1 - SaltLen] == c != tag[k] == t.digest[k - 1 - SaltLen];
    }
  }

  /** The primitives tell the hash texts `s1` and `s2` apart, if they differ. */
  ghost predicate Distinguishes(p: Primitives, s1: string, s2: string)
    requires p.WellFormed()
  {
    s1 != s2 ==> TruncatedDigest(p, s1) != TruncatedDigest(p, s2)
  }

  /**
   * Changing one salt character of an accepted tag makes it refused, provided
   * the truncated digest does not collide on the two hash inputs.
   */
  lemma SaltTamperDetected(p: Primitives, ip: string, value: string, epoch: string,
                           ifModifiedSince: seq<string>, tag: string, k: nat, c: char)
    requires p.WellFormed()
    requires Verify(p, ip, value, epoch, ifModifiedSince, [tag])
    requires 1 + HeadLen <= k < 1 + HeadLen + SaltLen && c != tag[k]
    requires Distinguishes(p, HashInput(ip, tag[1 + HeadLen..1 + HeadLen + SaltLen], value),
                              HashInput(ip, tag[k := c][1 + HeadLen..1 + HeadLen + SaltLen], value))
    ensures !Verify(p, ip, value, epoch, ifModifiedSince, [tag[k := c]])
  {
    var forged := tag[k := c];
    var t, f := Decode(tag).value, Decode(forged).value;
    BodySlice(tag, HeadLen, HeadLen + SaltLen);
    BodySlice(forged, HeadLen, HeadLen + SaltLen);
    assert f.salt[k - 1 - HeadLen] == c != t.salt[k - 1 - HeadLen];
    assert f.digest == t.digest by {
      assert Body(forged)[..HeadLen] == Body(tag)[..HeadLen];
      assert Body(forged)[HeadLen + SaltLen..] == Body(tag)[HeadLen + SaltLen..];
    }
    var s1, s2 := HashInput(ip, t.salt, value), HashInput(ip, f.salt, value);
    assert s1[|ip| + k - 1 - HeadLen] != s2[|ip| + k - 1 - HeadLen];
  }

  /**
   * Address binding: a tag issued for address `a` is refused for a different
   * address `b` with the same value, unless the truncated digest collides.
   */
  lemma AddressBinding(p: Primitives, a: string, b: string, salt: string, value: string, epoch: string)
    requires p.WellFormed() && |salt| == SaltLen && a != b
    requires Distinguishes(p, HashInput(a, salt, value), HashInput(b, salt, value))
    ensures !Verify(p, b, value, epoch, [epoch], [IssueETag(p, a, salt, value)])
  {
    DecodeEncode(salt, HashText(p, HashInput(a, salt, value)));
    InputsDifferInAddress(a, b, salt + value);
    assert HashInput(a, salt, value) == a + (salt + value);
    assert HashInput(b, salt, value) == b + (salt + value);
  }

  /**
   * Value binding: a tag issued for value `v` is refused for a different
   * value `w` with the same address, unless the truncated digest collides.
   */
  lemma ValueBinding(p: Primitives, ip: string, salt: string, v: string, w: string, epoch: string)
    requires p.WellFormed() && |salt| == SaltLen && v != w
    requires Distinguishes(p, HashInput(ip, salt, v), HashInput(ip, salt, w))
    ensures !Verify(p, ip, w, epoch, [epoch], [IssueETag(p, ip, salt, v)])
  {
    DecodeEncode(salt, HashText(p, HashInput(ip, salt, v)));
    InputsDifferInValue(ip + salt, v, w);
  }

  /** Different prefixes before the same suffix make different texts. */
  lemma InputsDifferInAddress(a: string, b: string, rest: string)
    requires a != b
    ensures a + rest != b + rest
  {
    if |a| == |b| {
      var i :| 0 <= i < |a| && a[i] != b[i];
      assert (a + rest)[i] != (b + rest)[i];
    } else {
      assert |a + rest| != |b + rest|;
    }
  }

  /** The same prefix before different suffixes makes different texts. */
  lemma InputsDifferInValue(prefix: string, v: string, w: string)
    requires v != w
    ensures prefix + v != prefix + w
  {
    assert (prefix + v)[|prefix|..] == v;
    assert (prefix + w)[|prefix|..] == w;
  }
}
