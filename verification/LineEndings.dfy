/** Line-ending normal forms of scripts/avvisi_crate.py: `digest` and
    `git_blob_digests`. Hashes are arbitrary functions of the bytes. */
module LineEndings {

  newtype Byte = b: int | 0 <= b < 256
  type Bytes = seq<Byte>

  const CR: Byte := 13
  const LF: Byte := 10

  /** `data.replace(b"\r\n", b"\n")`. */
  function ToLf(data: Bytes): Bytes
    decreases |data|
  {
    if data == [] then []
    else if |data| >= 2 && data[0] == CR && data[1] == LF then [LF] + ToLf(data[2..])
    else [data[0]] + ToLf(data[1..])
  }

  /** `data.replace(b"\n", b"\r\n")`. */
  function ToCrlf(data: Bytes): Bytes
  {
    if data == [] then []
    else if data[0] == LF then [CR, LF] + ToCrlf(data[1..])
    else [data[0]] + ToCrlf(data[1..])
  }

  predicate HasCrlf(data: Bytes)
  {
    exists i :: 0 <= i < |data| - 1 && data[i] == CR && data[i + 1] == LF
  }

  predicate EveryLfAfterCr(data: Bytes)
  {
    forall i :: 0 <= i < |data| && data[i] == LF ==> i > 0 && data[i - 1] == CR
  }

  /** LF to CRLF and back is the identity on all byte strings. */
  lemma {:induction false} CheckoutRoundTrip(data: Bytes)
    ensures ToLf(ToCrlf(data)) == data
  {
    if data != [] {
      var rest := ToCrlf(data[1..]);
      CheckoutRoundTrip(data[1..]);
      if data[0] == LF {
        assert ([CR, LF] + rest)[2..] == rest;
      } else {
        assert ([data[0]] + rest)[1..] == rest;
        assert |data| > 1 ==> rest[0] != LF;
        assert ToLf([data[0]] + rest) == [data[0]] + ToLf(rest);
      }
    }
  }

  /** A CRLF is at the start or in the rest. */
  lemma CrlfHeadOrTail(data: Bytes)
    requires data != []
    ensures HasCrlf(data) <==> (|data| >= 2 && data[0] == CR && data[1] == LF) || HasCrlf(data[1..])
  {
    var rest := data[1..];
    if i :| 0 <= i < |rest| - 1 && rest[i] == CR && rest[i + 1] == LF {
      assert data[i + 1] == CR && data[i + 2] == LF;
    }
    if i :| 0 <= i < |data| - 1 && data[i] == CR && data[i + 1] == LF {
      if i > 0 { assert rest[i - 1] == CR && rest[i] == LF; }
    }
  }

  lemma {:induction false} ToLfShorter(data: Bytes)
    ensures |ToLf(data)| <= |data| && (HasCrlf(data) ==> |ToLf(data)| < |data|)
    decreases |data|
  {
    if data != [] {
      CrlfHeadOrTail(data);
      if |data| >= 2 && data[0] == CR && data[1] == LF {
        ToLfShorter(data[2..]);
      } else {
        ToLfShorter(data[1..]);
      }
    }
  }

  lemma {:induction false} NoCrlfUnchanged(data: Bytes)
    requires !HasCrlf(data)
    ensures ToLf(data) == data
  {
    if data != [] {
      CrlfHeadOrTail(data);
      NoCrlfUnchanged(data[1..]);
      assert data == [data[0]] + data[1..];
    }
  }

  /** The LF form is the text itself exactly when the text holds no CRLF. */
  lemma LfFormExactly(data: Bytes)
    ensures ToLf(data) == data <==> !HasCrlf(data)
  {
    ToLfShorter(data);
    if !HasCrlf(data) { NoCrlfUnchanged(data); }
  }

  /** Every LF that `ToCrlf` writes has its CR. */
  lemma {:induction false} CrlfIsPure(data: Bytes)
    ensures EveryLfAfterCr(ToCrlf(data))
  {
    if data != [] {
      CrlfIsPure(data[1..]);
      var rest := ToCrlf(data[1..]);
      var head := if data[0] == LF then [CR, LF] else [data[0]];
      var all := head + rest;
      forall i | 0 <= i < |all| && all[i] == LF ensures i > 0 && all[i - 1] == CR {
        if i >= |head| { assert rest[i - |head|] == LF; }
      }
    }
  }

  /** Undoing the normalisation gives back a text whose every LF follows a CR. */
  lemma {:induction false} PureCrlfRestored(data: Bytes)
    requires EveryLfAfterCr(data)
    ensures ToCrlf(ToLf(data)) == data
    decreases |data|
  {
    if data != [] {
      assert data[0] != LF;
      if |data| >= 2 && data[0] == CR && data[1] == LF {
        var rest := data[2..];
        forall i | 0 <= i < |rest| && rest[i] == LF ensures i > 0 && rest[i - 1] == CR {
          assert data[i + 2] == LF;
        }
        PureCrlfRestored(rest);
        assert ([LF] + ToLf(rest))[1..] == ToLf(rest);
        assert data == [CR, LF] + rest;
      } else {
        var rest := data[1..];
        forall i | 0 <= i < |rest| && rest[i] == LF ensures i > 0 && rest[i - 1] == CR {
          assert data[i + 1] == LF;
        }
        PureCrlfRestored(rest);
        assert ([data[0]] + ToLf(rest))[1..] == ToLf(rest);
        assert data == [data[0]] + rest;
      }
    }
  }

  /** The two forms `git_blob_digests` reconstructs. */
  function Forms(data: Bytes): set<Bytes>
  {
    {ToLf(data), ToCrlf(ToLf(data))}
  }

  /** The original bytes are among the two reconstructed forms exactly when the
      line endings are pure: no CRLF at all, or no LF without its CR. */
  lemma ReconstructedExactly(data: Bytes)
    ensures data in Forms(data) <==> !HasCrlf(data) || EveryLfAfterCr(data)
  {
    LfFormExactly(data);
    CrlfIsPure(ToLf(data));
    if EveryLfAfterCr(data) { PureCrlfRestored(data); }
  }

  /** LF CR LF mixes both endings and is neither of the forms. */
  lemma MixedEndingsAreLost()
    ensures [LF, CR, LF] !in Forms([LF, CR, LF])
  {
    var data := [LF, CR, LF];
    assert data[1] == CR && data[2] == LF;
    assert !EveryLfAfterCr(data) by { assert data[0] == LF; }
    ReconstructedExactly(data);
  }

  function Digest<T>(hash: Bytes -> T, data: Bytes): T
  {
    hash(ToLf(data))
  }

  /** A CRLF checkout has the digest of the text it was made from, for every
      hash, exactly when that text holds no CRLF. */
  lemma DigestSurvivesCheckoutExactly(data: Bytes)
    ensures (forall hash: Bytes -> Bytes :: Digest(hash, ToCrlf(data)) == Digest(hash, data)) <==> !HasCrlf(data)
  {
    CheckoutRoundTrip(data);
    LfFormExactly(data);
    var identity := (b: Bytes) => b;
    assert Digest(identity, ToCrlf(data)) == data && Digest(identity, data) == ToLf(data);
  }

  /** CR LF and its CRLF checkout, CR CR LF, have different digests under some hash. */
  lemma CrlfTextChangesDigest() returns (hash: Bytes -> Bytes)
    ensures Digest(hash, ToCrlf([CR, LF])) != Digest(hash, [CR, LF])
  {
    var data := [CR, LF];
    assert data[0] == CR && data[1] == LF;
    DigestSurvivesCheckoutExactly(data);
    hash :| Digest(hash, ToCrlf(data)) != Digest(hash, data);
  }

  /** The blob digest of a CRLF-free upstream text is found from a stored copy
      with either line ending. */
  lemma UpstreamIsFound(upstream: Bytes)
    requires !HasCrlf(upstream)
    ensures upstream in Forms(upstream) && upstream in Forms(ToCrlf(upstream))
  {
    LfFormExactly(upstream);
    CheckoutRoundTrip(upstream);
  }
}
