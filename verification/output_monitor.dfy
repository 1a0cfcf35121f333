/**
 * `OutputDigestMonitor`: hashes a process output that arrives in chunks and finds a
 * secret in it, keeping only a short tail between chunks.
 */
module OutputMonitor {
  import opened Basics
  import opened Framing

  function Suffix(b: Bytes, n: nat): Bytes {
    if |b| <= n then b else b[|b|-n..]
  }

  /** The bytes that can still be part of an occurrence that is not complete yet. */
  function Keep(secret: Bytes): nat {
    if secret == [] then 0 else |secret| - 1
  }

  lemma OccursInAppend(a: Bytes, c: Bytes, i: nat, s: Bytes)
    ensures i + |s| <= |a| ==> (OccursAt(a + c, i, s) <==> OccursAt(a, i, s))
  {}

  lemma OccursInDrop(b: Bytes, d: nat, i: nat, s: Bytes)
    requires d <= |b|
    ensures OccursAt(b[d..], i, s) <==> OccursAt(b, d + i, s)
  {}

  /**
   * A secret occurs in `a + c` iff it occurs in `a` already or in the kept tail of `a`
   * followed by `c`: nothing that straddles the boundary is lost.
   */
  lemma BoundaryComplete(a: Bytes, c: Bytes, secret: Bytes)
    requires secret != []
    ensures Contains(a + c, secret) <==>
      Contains(a, secret) || Contains(Suffix(a, Keep(secret)) + c, secret)
  {
    var tail := Suffix(a, Keep(secret));
    var d := |a| - |tail|;
    assert (a + c)[d..] == tail + c;
    if Contains(a + c, secret) {
      var i :| 0 <= i <= |a + c| && OccursAt(a + c, i, secret);
      OccursInAppend(a, c, i, secret);
      if i + |secret| > |a| {
        OccursInDrop(a + c, d, i - d, secret);
        assert OccursAt(tail + c, i - d, secret);
      }
    }
    if Contains(a, secret) {
      var i :| 0 <= i <= |a| && OccursAt(a, i, secret);
      OccursInAppend(a, c, i, secret);
      assert OccursAt(a + c, i, secret);
    }
    if Contains(tail + c, secret) {
      var i :| 0 <= i <= |tail + c| && OccursAt(tail + c, i, secret);
      OccursInDrop(a + c, d, i, secret);
      assert OccursAt(a + c, d + i, secret);
    }
  }

  /** The tail after a chunk depends on the whole stream only. */
  lemma TailOfTail(a: Bytes, c: Bytes, n: nat)
    ensures Suffix(Suffix(a, n) + c, n) == Suffix(a + c, n)
  {}

  /** `combined[-keep:]`, and nothing when `keep` is zero. */
  function LastOf(combined: Bytes, keep: nat): Bytes {
    if keep == 0 then [] else if keep <= |combined| then combined[|combined| - keep..] else combined
  }

  lemma TailUpdate(received: Bytes, chunk: Bytes, keep: nat)
    ensures LastOf(Suffix(received, keep) + chunk, keep) == Suffix(received + chunk, keep)
  {
    TailOfTail(received, chunk, keep);
  }

  datatype Receipt = Receipt(byteCount: nat, sha256: Text, tokenDetected: bool)

  /** What a monitor that saw the whole output at once would report. */
  function WholeReceipt(h: Hash, output: Bytes, secret: Bytes): Receipt {
    Receipt(|output|, T("sha256:") + Hex(h(output)), secret != [] && Contains(output, secret))
  }

  /** The flag in plain terms: something, the secret, something. */
  lemma DetectionLaw(output: Bytes, secret: Bytes)
    ensures Contains(output, secret) <==> exists before: Bytes, after: Bytes :: output == before + secret + after
  {
    if Contains(output, secret) {
      var i :| 0 <= i <= |output| && OccursAt(output, i, secret);
      assert output == output[..i] + secret + output[i + |secret|..];
    }
    if before: Bytes, after: Bytes :| output == before + secret + after {
      var i := |before|;
      assert output[i..i + |secret|] == secret;
      assert OccursAt(output, i, secret);
    }
  }

  class OutputDigestMonitor {
    const secret: Bytes
    var digest: Hasher
    var byteCount: nat
    var secretDetected: bool
    var tail: Bytes
    ghost var received: Bytes

    ghost predicate Valid()
      reads this, digest
    {
      && digest.fed == received
      && byteCount == |received|
      && (secretDetected <==> secret != [] && Contains(received, secret))
      && tail == Suffix(received, Keep(secret))
    }

    constructor (secret: Bytes)
      ensures Valid() && received == [] && this.secret == secret && fresh(digest)
    {
      this.secret := secret;
      digest := new Hasher();
      byteCount := 0;
      secretDetected := false;
      tail := [];
      received := [];
      new;
      assert forall i: nat :: i <= 0 ==> (OccursAt([], i, secret) ==> secret == []);
    }

    /** One turn of the read loop. */
    method Absorb(chunk: Bytes)
      requires Valid()
      modifies this, digest
      ensures Valid() && received == old(received) + chunk && digest == old(digest)
    {
      hide Contains, Suffix, LastOf;
      digest.Update(chunk);
      byteCount := byteCount + |chunk|;
      var combined := tail + chunk;
      if secret != [] && Contains(combined, secret) {
        secretDetected := true;
      }
      var keep := Keep(secret);
      TailUpdate(received, chunk, keep);
      if secret != [] { BoundaryComplete(received, chunk, secret); }
      tail := LastOf(combined, keep);
      received := received + chunk;
    }

    /** `_read`: `chunks` are the results of the successive reads. */
    method Read(chunks: seq<Bytes>)
      requires Valid()
      modifies this, digest
      ensures Valid() && received == old(received) + Flatten(UntilEnd(chunks)) && digest == old(digest)
    {
      var i := 0;
      while i < |chunks| && chunks[i] != []
        invariant 0 <= i <= |chunks|
        invariant Valid() && digest == old(digest)
        invariant received + Flatten(UntilEnd(chunks[i..])) == old(received) + Flatten(UntilEnd(chunks))
      {
        Absorb(chunks[i]);
        i := i + 1;
      }
    }

    /** `receipt`, for a monitor that has read everything. */
    method GetReceipt(h: Hash) returns (r: Receipt)
      requires Valid()
      ensures r == WholeReceipt(h, received, secret)
    {
      var sha := HexLower(h(digest.fed));
      r := Receipt(byteCount, T("sha256:") + sha, secretDetected);
    }
  }

  /** A monitor's whole life: for every chunking, the receipt of the whole output. */
  method Monitor(h: Hash, secret: Bytes, chunks: seq<Bytes>) returns (r: Receipt)
    ensures r == WholeReceipt(h, Flatten(UntilEnd(chunks)), secret)
    ensures var output := Flatten(UntilEnd(chunks));
      && r.byteCount == |output| && r.sha256 == T("sha256:") + Hex(h(output))
      && (r.tokenDetected <==>
            secret != [] && exists before: Bytes, after: Bytes :: output == before + secret + after)
  {
    DetectionLaw(Flatten(UntilEnd(chunks)), secret);
    var monitor := new OutputDigestMonitor(secret);
    monitor.Read(chunks);
    assert monitor.received == Flatten(UntilEnd(chunks));
    r := monitor.GetReceipt(h);
  }
}
