/** Page cursors: an offset and its query context, signed and written as base64 text. */
module Cursor {
  import opened Base64
  import opened Texts
  import opened Wrappers

  /** Everything a cursor is bound to. */
  datatype Context = Context(
    principalId: string, workspaceId: string, generationId: string, repoDigest: string, operation: string,
    repoId: Option<string>, pageSize: nat, depth: nat, nodeLimit: nat, endpointKey: Option<string>,
    role: Option<string>, relatedTo: Option<string>, fromGenerationId: Option<string>)

  /**
   `mac` is the keyed digest, `dump` the canonical payload text and `load` its reader, absent
   where the payload does not hold an integer offset and a context.
   */
  datatype Signer = Signer(
    mac: seq<Byte> -> seq<Byte>,
    dump: (nat, Context) -> seq<Byte>,
    load: seq<Byte> -> Option<(int, Context)>)

  ghost predicate Sound(s: Signer) {
    && (forall payload :: |s.mac(payload)| == 32)
    && (forall offset: nat, context :: s.load(s.dump(offset, context)) == Some((offset, context)))
  }

  function Mint(s: Signer, offset: nat, context: Context): string {
    var payload := s.dump(offset, context);
    StripPad(Encode(payload + s.mac(payload)))
  }

  /** `raw[:-32]` and `raw[-32:]`. */
  function SplitTag(raw: seq<Byte>): (seq<Byte>, seq<Byte>) {
    if |raw| <= 32 then ([], raw) else (raw[..|raw| - 32], raw[|raw| - 32..])
  }

  function Unpad(cursor: string): Option<seq<Byte>> { Decode(cursor + Padding(|cursor|)) }

  /** The offset to serve, or an error for a cursor that is not valid in this context. */
  function Offset(s: Signer, cursor: Option<string>, context: Context): Result<nat, ()> {
    if cursor.None? then Ok(0)
    else
      var raw := Unpad(cursor.value);
      if raw.None? then Err(())
      else
        var (payload, tag) := SplitTag(raw.value);
        if tag != s.mac(payload) then Err(())
        else
          var decoded := s.load(payload);
          if decoded.None? || decoded.value.0 < 0 || decoded.value.1 != context then Err(())
          else Ok(decoded.value.0)
  }

  /** A cursor gives back its offset in the context it was made for and is refused in any other. */
  lemma CursorRoundTrip(s: Signer, offset: nat, context: Context, context': Context)
    requires Sound(s)
    ensures Offset(s, Some(Mint(s, offset, context)), context')
         == if context == context' then Ok(offset) else Err(())
  {
    var payload := s.dump(offset, context);
    var raw := payload + s.mac(payload);
    Base64RoundTrip(raw);
    assert |s.mac(payload)| == 32;
    if payload == [] {
      assert raw == s.mac(payload);
    } else {
      assert raw[..|raw| - 32] == payload && raw[|raw| - 32..] == s.mac(payload);
    }
  }

  /** A cursor is accepted exactly when it is a payload followed by that payload's own tag. */
  lemma CursorAccepted(s: Signer, cursor: string, context: Context, offset: nat)
    requires Sound(s)
    ensures Offset(s, Some(cursor), context) == Ok(offset)
       <==> exists payload :: && Unpad(cursor) == Some(payload + s.mac(payload))
                              && s.load(payload) == Some((offset, context))
  {
    if Offset(s, Some(cursor), context) == Ok(offset) {
      var raw := Unpad(cursor).value;
      var (payload, tag) := SplitTag(raw);
      assert raw == payload + s.mac(payload);
    }
    if exists payload :: Unpad(cursor) == Some(payload + s.mac(payload)) && s.load(payload) == Some((offset, context)) {
      var payload :| Unpad(cursor) == Some(payload + s.mac(payload)) && s.load(payload) == Some((offset, context));
      var raw := payload + s.mac(payload);
      assert |s.mac(payload)| == 32;
      if payload == [] {
        assert raw == s.mac(payload);
      } else {
        assert raw[..|raw| - 32] == payload && raw[|raw| - 32..] == s.mac(payload);
      }
    }
  }

  /** A minted cursor passes the checks a request and a page make of their text. */
  lemma MintNonblank(s: Signer, offset: nat, context: Context)
    requires Sound(s)
    ensures Nonblank(Mint(s, offset, context))
  {
    var payload := s.dump(offset, context);
    assert |s.mac(payload)| == 32;
    var body := EncodeShape(payload + s.mac(payload));
    StripPadding(body);
    assert !IsSpace(body[0]);
  }
}
