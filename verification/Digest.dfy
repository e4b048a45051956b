/** Content digests: `sha256:` followed by the hash in hexadecimal.

    The hash itself is a parameter. All that is known about it is the shape of its result;
    it is not assumed to be free of collisions. */
module Digest {
  import opened FabricksModules
  import opened Wrappers

  type Hasher = Bytes -> string

  const PREFIX := "sha256:"

  predicate HexDigit(c: char) {
    '0' <= c <= '9' || 'a' <= c <= 'f' || 'A' <= c <= 'F'
  }

  predicate Hex64(s: string) {
    |s| == 64 && forall i :: 0 <= i < 64 ==> HexDigit(s[i])
  }

  ghost predicate HexHash(hash: Hasher) {
    forall data :: Hex64(hash(data))
  }

  function ComputeDigest(hash: Hasher, content: Bytes): string {
    PREFIX + hash(content)
  }

  datatype DigestError =
    | InvalidFormat(digest: string)
    | UnsupportedAlgorithm(algorithm: string)
    | Mismatch(expected: string, actual: string)

  function VerifyDigest(hash: Hasher, content: Bytes, expected: string): Result<(), DigestError> {
    var actual := ComputeDigest(hash, content);
    if actual == expected then Ok(()) else Err(Mismatch(expected, actual))
  }

  /** `strip_prefix("sha256:")`. */
  function StripPrefix(digest: string): Option<string> {
    if PREFIX <= digest then Some(digest[|PREFIX|..]) else None
  }

  function ColonIndex(s: string): (n: nat)
    ensures n <= |s|
    ensures forall i :: 0 <= i < n ==> s[i] != ':'
    ensures n < |s| ==> s[n] == ':'
  {
    if s == "" || s[0] == ':' then 0 else 1 + ColonIndex(s[1..])
  }

  /** Splits a digest at its first colon and checks algorithm, length and alphabet. */
  function ParseDigest(digest: string): Result<(string, string), DigestError> {
    var n := ColonIndex(digest);
    if n == |digest| then Err(InvalidFormat(digest))
    else
      var algorithm, hash := digest[..n], digest[n + 1..];
      if algorithm != "sha256" && algorithm != "sha512" then Err(UnsupportedAlgorithm(algorithm))
      else if |hash| != (if algorithm == "sha256" then 64 else 128) then Err(InvalidFormat(digest))
      else if exists i :: 0 <= i < |hash| && !HexDigit(hash[i]) then Err(InvalidFormat(digest))
      else Ok((algorithm, hash))
  }

  lemma PrefixIsStripped(digest: string, name: string)
    ensures StripPrefix(digest) == Some(name) <==> digest == "sha256:" + name
  {
  }

  lemma StripsOwnPrefix(name: string)
    ensures StripPrefix(PREFIX + name) == Some(name)
  {
  }

  /** A digest names the content whose hash follows the prefix, and no other. */
  lemma VerifyIffNamed(hash: Hasher, content: Bytes, digest: string)
    ensures VerifyDigest(hash, content, digest).Ok? <==> StripPrefix(digest) == Some(hash(content))
    ensures VerifyDigest(hash, content, digest)
         == if digest == "sha256:" + hash(content) then Ok(()) else Err(Mismatch(digest, "sha256:" + hash(content)))
  {
  }

  ghost predicate WellFormedParts(algorithm: string, hash: string) {
    && ((algorithm == "sha256" && |hash| == 64) || (algorithm == "sha512" && |hash| == 128))
    && forall i :: 0 <= i < |hash| ==>
         '0' <= hash[i] <= '9' || 'a' <= hash[i] <= 'f' || 'A' <= hash[i] <= 'F'
  }

  lemma ColonSplit(algorithm: string, hash: string)
    requires ':' !in algorithm
    ensures var digest := algorithm + ":" + hash;
            ColonIndex(digest) == |algorithm| && digest[..|algorithm|] == algorithm && digest[|algorithm| + 1..] == hash
  {
    var digest := algorithm + ":" + hash;
    assert digest[|algorithm|] == ':';
    assert forall i :: 0 <= i < |algorithm| ==> digest[i] == algorithm[i];
  }

  /** The parser splits exactly the digests that are an algorithm, a colon and a hash of
      that algorithm's length in hexadecimal. */
  lemma ParsesIffWellFormed(digest: string, algorithm: string, hash: string)
    ensures ParseDigest(digest) == Ok((algorithm, hash))
            <==> digest == algorithm + ":" + hash && WellFormedParts(algorithm, hash)
  {
    var n := ColonIndex(digest);
    if n < |digest| {
      assert digest == digest[..n] + ":" + digest[n + 1..];
    }
    if digest == algorithm + ":" + hash && WellFormedParts(algorithm, hash) {
      ColonSplit(algorithm, hash);
    }
  }

  /** Why every other digest is rejected. */
  lemma RejectedBecause(digest: string)
    ensures ':' !in digest ==> ParseDigest(digest) == Err(InvalidFormat(digest))
    ensures forall algorithm, hash :: ':' !in algorithm && digest == algorithm + ":" + hash ==>
              && (algorithm != "sha256" && algorithm != "sha512"
                  ==> ParseDigest(digest) == Err(UnsupportedAlgorithm(algorithm)))
              && ((algorithm == "sha256" || algorithm == "sha512") && !WellFormedParts(algorithm, hash)
                  ==> ParseDigest(digest) == Err(InvalidFormat(digest)))
  {
    forall algorithm, hash | ':' !in algorithm && digest == algorithm + ":" + hash
      ensures ColonIndex(digest) == |algorithm|
      ensures digest[..|algorithm|] == algorithm && digest[|algorithm| + 1..] == hash
    {
      ColonSplit(algorithm, hash);
    }
  }

  /** In particular every digest the store computes. */
  lemma ParsesComputed(hash: Hasher, content: Bytes)
    requires HexHash(hash)
    ensures ParseDigest(ComputeDigest(hash, content)) == Ok(("sha256", hash(content)))
  {
    assert Hex64(hash(content));
    assert PREFIX == "sha256" + ":";
    ParsesIffWellFormed(ComputeDigest(hash, content), "sha256", hash(content));
  }
}
