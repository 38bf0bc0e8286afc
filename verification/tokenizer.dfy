/** The tokenizer facade: text -> pre-tokenizer chunks -> byte-mapped
    characters -> BPE fragments -> vocabulary ids, and back.

    Text is modelled by its UTF-8 bytes. The regex pre-tokenizer and the
    byte-to-character table are parameters: the first is an arbitrary
    function from text to chunks, the second a pair of maps that the
    round-trip lemma requires to be mutually inverse. */
module Tokenizers {
  import opened Wrappers
  import opened Strings
  import opened Lookup
  import opened MergeRanks
  import opened BpeEngine

  newtype byte = x: int | 0 <= x < 256

  /** `byteEncoder` and `byteDecoder`: every byte to one printable
      character, and back. */
  datatype ByteMap = ByteMap(encoder: map<byte, char>, decoder: map<char, byte>)

  /** A usable byte map: total on bytes, inverted by its decoder, and never
      producing an ASCII space, since merged fragments are joined and split
      again on spaces. */
  ghost predicate ValidByteMap(m: ByteMap)
  {
    && (forall b: byte :: b in m.encoder)
    && (forall b :: b in m.encoder ==> m.encoder[b] != ' ')
    && (forall b :: b in m.encoder ==> m.encoder[b] in m.decoder && m.decoder[m.encoder[b]] == b)
  }

  /** What a forced lookup (`!`) in the source would trap on. */
  datatype Error =
    | UnknownFragment(fragment: string)   // encode: fragment not in the vocabulary
    | UnknownId(id: int)                  // decode: id not in the inverse vocabulary
    | UnmappedByte(value: byte)           // byte missing from the byte encoder
    | UnmappedChar(c: char)               // character missing from the byte decoder
    | MissingReservedToken(name: string)  // `<s>` or `</s>` missing from the vocabulary
    | NoIds                               // strip: the first or last id of an empty list

  datatype Tokenizer = Tokenizer(
    bpeRanks: Ranks,
    encoder: map<string, int>,
    decoder: map<int, string>,
    bytes: ByteMap,
    preTokenize: seq<byte> -> seq<seq<byte>>)

  /** The vocabulary's id-to-fragment map inverts its fragment-to-id map. */
  ghost predicate ValidVocab(t: Tokenizer)
  {
    forall s :: s in t.encoder ==> t.encoder[s] in t.decoder && t.decoder[t.encoder[s]] == s
  }

  /** The pre-tokenizer loses nothing: its chunks spell the text. */
  ghost predicate Covers(t: Tokenizer, text: seq<byte>)
  {
    Concat(t.preTokenize(text)) == text
  }

  /** Builds a tokenizer from the merges lines (rank table), a vocabulary
      with its inverse, a byte map and a pre-tokenizer. */
  method Init(
    mergeLines: seq<string>,
    encoder: map<string, int>,
    decoder: map<int, string>,
    bytes: ByteMap,
    preTokenize: seq<byte> -> seq<seq<byte>>)
    returns (r: Result<Tokenizer, LoadError>)
    ensures r.Success? <==> |mergeLines| > 0 && forall i :: 1 <= i < |mergeLines| ==> ParsedLines(mergeLines)[i].Some?
    ensures r.Success? ==> IsRankTable(ParsedLines(mergeLines), r.value.bpeRanks) && Injective(r.value.bpeRanks)
    ensures r.Success? ==>
      && r.value.encoder == encoder && r.value.decoder == decoder && r.value.bytes == bytes
      && r.value.preTokenize == preTokenize
  {
    var ranks := BuildRanks(mergeLines);
    if ranks.Failure? {
      return Failure(ranks.error);
    }
    return Success(Tokenizer(ranks.value, encoder, decoder, bytes, preTokenize));
  }

  /** The bytes of one chunk, each replaced by its character. */
  function EncodeBytes(m: ByteMap, chunk: seq<byte>): (r: Result<string, Error>)
    ensures ValidByteMap(m) ==> r.Success?
    ensures r.Success? ==> |r.value| == |chunk| && forall i :: 0 <= i < |chunk| ==> chunk[i] in m.encoder && r.value[i] == m.encoder[chunk[i]]
    ensures r.Success? && ValidByteMap(m) ==> ' ' !in r.value
  {
    match LookupAll(m.encoder, chunk)
    case Success(cs) => Success(cs)
    case Failure(b) => Failure(UnmappedByte(b))
  }

  /** `byteEncode(text)`: pre-tokenize, then byte-map every chunk. */
  function ByteEncode(t: Tokenizer, text: seq<byte>): (r: Result<seq<string>, Error>)
    ensures ValidByteMap(t.bytes) ==> r.Success? && |r.value| == |t.preTokenize(text)|
    ensures r.Success? && Covers(t, text) ==> LookupAll(t.bytes.encoder, text) == Success(Concat(r.value))
  {
    var r := EncodeChunks(t.bytes, t.preTokenize(text));
    if r.Success? then EncodeChunksConcat(t.bytes, t.preTokenize(text)); r else r
  }

  function EncodeChunks(m: ByteMap, chunks: seq<seq<byte>>): (r: Result<seq<string>, Error>)
    ensures ValidByteMap(m) ==> r.Success?
    ensures r.Success? ==> |r.value| == |chunks|
    ensures r.Success? ==> forall i :: 0 <= i < |chunks| ==> EncodeBytes(m, chunks[i]) == Success(r.value[i])
    decreases |chunks|
  {
    if chunks == [] then Success([])
    else
      var head :- EncodeBytes(m, chunks[0]);
      var tail :- EncodeChunks(m, chunks[1..]);
      Success([head] + tail)
  }

  /** The fragments of every chunk, in order: each chunk is merged by `bpe`
      and its result split on spaces. */
  function BpeChunks(ranks: Ranks, chunks: seq<string>): (r: seq<string>)
    ensures Pieces(r, ' ')
    ensures (forall i :: 0 <= i < |chunks| ==> ' ' !in chunks[i]) ==> Concat(r) == Concat(chunks)
    decreases |chunks|
  {
    if chunks == [] then []
    else
      var head := Split(BpeRef(ranks, chunks[0]), ' ');
      var tail := BpeChunks(ranks, chunks[1..]);
      PiecesAppend(head, tail, ' ');
      ConcatAppend(head, tail);
      ConcatAppend([chunks[0]], chunks[1..]);
      assert [chunks[0]] + chunks[1..] == chunks;
      assert (forall i :: 0 <= i < |chunks| ==> ' ' !in chunks[i]) ==>
        (forall i :: 0 <= i < |chunks| - 1 ==> ' ' !in chunks[1..][i]);
      head + tail
  }

  /** Chunks are merged independently: the fragments of a concatenation of
      chunk lists are the fragments of each list, in order. */
  lemma {:induction false} BpeChunksAppend(ranks: Ranks, a: seq<string>, b: seq<string>)
    ensures BpeChunks(ranks, a + b) == BpeChunks(ranks, a) + BpeChunks(ranks, b)
    decreases |a|
  {
    if a == [] {
      assert a + b == b;
    } else {
      assert (a + b)[0] == a[0];
      assert (a + b)[1..] == a[1..] + b;
      BpeChunksAppend(ranks, a[1..], b);
      var head := Split(BpeRef(ranks, a[0]), ' ');
      assert BpeChunks(ranks, a + b) == head + (BpeChunks(ranks, a[1..]) + BpeChunks(ranks, b));
      assert head + (BpeChunks(ranks, a[1..]) + BpeChunks(ranks, b))
        == (head + BpeChunks(ranks, a[1..])) + BpeChunks(ranks, b);
    }
  }

  /** The fragments of one chunk are `bpe`'s result split on spaces: they
      spell the chunk and no adjacent pair of them is ranked. */
  lemma BpeChunksSingle(ranks: Ranks, c: string)
    requires ' ' !in c
    ensures BpeChunks(ranks, [c]) == Split(BpeRef(ranks, c), ' ')
    ensures Concat(BpeChunks(ranks, [c])) == c
    ensures Final(ranks, BpeChunks(ranks, [c]))
  {
    assert [c][1..] == [];
    assert Split(BpeRef(ranks, c), ' ') + [] == Split(BpeRef(ranks, c), ' ');
  }

  /** `tokenize(text)`: the BPE fragments of all chunks. */
  function Tokenize(t: Tokenizer, text: seq<byte>): (r: Result<seq<string>, Error>)
    ensures ValidByteMap(t.bytes) ==> r.Success?
    ensures r.Success? ==> Pieces(r.value, ' ')
    ensures r.Success? && ValidByteMap(t.bytes) ==> Concat(r.value) == Concat(ByteEncode(t, text).value)
  {
    var chunks :- ByteEncode(t, text);
    assert ValidByteMap(t.bytes) ==> forall i :: 0 <= i < |chunks| ==> ' ' !in chunks[i] by {
      if ValidByteMap(t.bytes) {
        forall i | 0 <= i < |chunks| ensures ' ' !in chunks[i] {
          assert EncodeBytes(t.bytes, t.preTokenize(text)[i]) == Success(chunks[i]);
        }
      }
    }
    Success(BpeChunks(t.bpeRanks, chunks))
  }

  /** `encode(text)`: the vocabulary id of every fragment. */
  function Encode(t: Tokenizer, text: seq<byte>): (r: Result<seq<int>, Error>)
    ensures r.Success? ==> Tokenize(t, text).Success?
    ensures r.Success? ==> var frags := Tokenize(t, text).value;
      |r.value| == |frags| && forall i :: 0 <= i < |frags| ==> frags[i] in t.encoder && r.value[i] == t.encoder[frags[i]]
    ensures r.Failure? && ValidByteMap(t.bytes) ==>
      r.error.UnknownFragment? && r.error.fragment !in t.encoder && r.error.fragment in Tokenize(t, text).value
  {
    var frags :- Tokenize(t, text);
    match LookupAll(t.encoder, frags)
    case Success(ids) => Success(ids)
    case Failure(f) => Failure(UnknownFragment(f))
  }

  /** `decode(ids)`: the fragments of the ids, concatenated, then each
      character mapped back to its byte. Stops at the bytes: reading them
      as UTF-8 is left to the caller. */
  function Decode(t: Tokenizer, ids: seq<int>): (r: Result<seq<byte>, Error>)
    ensures r.Failure? && r.error.UnknownId? ==> r.error.id in ids && r.error.id !in t.decoder
    ensures r.Success? ==> forall i :: 0 <= i < |ids| ==> ids[i] in t.decoder
    ensures (forall i :: 0 <= i < |ids| ==> ids[i] in t.decoder) ==> !(r.Failure? && r.error.UnknownId?)
    ensures (exists i :: 0 <= i < |ids| && ids[i] !in t.decoder) ==> r.Failure? && r.error.UnknownId?
    ensures r.Failure? && r.error.UnmappedChar? ==> r.error.c !in t.bytes.decoder
    ensures
      && (forall i :: 0 <= i < |ids| ==> ids[i] in t.decoder)
      && (forall c :: c in Concat(LookupAll(t.decoder, ids).value) ==> c in t.bytes.decoder)
      ==> r.Success?
    ensures r.Failure? ==> r.error.UnknownId? || r.error.UnmappedChar?
    ensures r.Success? ==> LookupAll(t.decoder, ids).Success?
    ensures r.Success? ==>
      var cs := Concat(LookupAll(t.decoder, ids).value);
      && |r.value| == |cs|
      && forall k :: 0 <= k < |cs| ==> cs[k] in t.bytes.decoder && r.value[k] == t.bytes.decoder[cs[k]]
  {
    match LookupAll(t.decoder, ids)
    case Failure(id) => Failure(UnknownId(id))
    case Success(frags) =>
      match LookupAll(t.bytes.decoder, Concat(frags))
      case Failure(c) => Failure(UnmappedChar(c))
      case Success(bs) => Success(bs)
  }

  /** Decoding is compositional: the bytes of a concatenation of ids are
      the bytes of each part, in order. */
  lemma DecodeAppend(t: Tokenizer, a: seq<int>, b: seq<int>)
    requires Decode(t, a).Success? && Decode(t, b).Success?
    ensures Decode(t, a + b) == Success(Decode(t, a).value + Decode(t, b).value)
  {
    var fa, fb := LookupAll(t.decoder, a).value, LookupAll(t.decoder, b).value;
    LookupAllAppend(t.decoder, a, b);
    ConcatAppend(fa, fb);
    LookupAllAppend(t.bytes.decoder, Concat(fa), Concat(fb));
  }

  const Bos: string := "<s>"
  const Eos: string := "</s>"

  /** `appendBOS`: the `<s>` id first, then the input. */
  function AppendBos(t: Tokenizer, ids: seq<int>): (r: Result<seq<int>, Error>)
    ensures r.Success? <==> Bos in t.encoder
    ensures r.Failure? ==> r.error == MissingReservedToken(Bos)
    ensures r.Success? ==> |r.value| == |ids| + 1 && r.value[0] == t.encoder[Bos] && r.value[1..] == ids
  {
    if Bos in t.encoder then Success([t.encoder[Bos]] + ids) else Failure(MissingReservedToken(Bos))
  }

  /** `appendEOS`: the input, then the `</s>` id last. */
  function AppendEos(t: Tokenizer, ids: seq<int>): (r: Result<seq<int>, Error>)
    ensures r.Success? <==> Eos in t.encoder
    ensures r.Failure? ==> r.error == MissingReservedToken(Eos)
    ensures r.Success? ==> |r.value| == |ids| + 1 && r.value[|ids|] == t.encoder[Eos] && r.value[..|ids|] == ids
  {
    if Eos in t.encoder then Success(ids + [t.encoder[Eos]]) else Failure(MissingReservedToken(Eos))
  }

  /** `stripBOS`: drops a leading `<s>` id and otherwise changes nothing.
      The first id is read before the vocabulary, so an empty input fails
      on that read. */
  function StripBos(t: Tokenizer, ids: seq<int>): (r: Result<seq<int>, Error>)
    ensures r.Success? <==> |ids| > 0 && Bos in t.encoder
    ensures ids == [] ==> r == Failure(NoIds)
    ensures r.Success? && ids[0] == t.encoder[Bos] ==> AppendBos(t, r.value) == Success(ids)
    ensures r.Success? && ids[0] != t.encoder[Bos] ==> r.value == ids
  {
    if ids == [] then Failure(NoIds)
    else if Bos !in t.encoder then Failure(MissingReservedToken(Bos))
    else if ids[0] == t.encoder[Bos] then
      assert [ids[0]] + ids[1..] == ids;
      Success(ids[1..])
    else Success(ids)
  }

  /** `stripEOS`: drops a trailing `</s>` id and otherwise changes nothing;
      an empty input fails on reading its last id. */
  function StripEos(t: Tokenizer, ids: seq<int>): (r: Result<seq<int>, Error>)
    ensures r.Success? <==> |ids| > 0 && Eos in t.encoder
    ensures ids == [] ==> r == Failure(NoIds)
    ensures r.Success? && ids[|ids| - 1] == t.encoder[Eos] ==> AppendEos(t, r.value) == Success(ids)
    ensures r.Success? && ids[|ids| - 1] != t.encoder[Eos] ==> r.value == ids
  {
    if ids == [] then Failure(NoIds)
    else if Eos !in t.encoder then Failure(MissingReservedToken(Eos))
    else if ids[|ids| - 1] == t.encoder[Eos] then
      assert ids[..|ids| - 1] + [ids[|ids| - 1]] == ids;
      Success(ids[..|ids| - 1])
    else Success(ids)
  }

  /** Stripping undoes appending. */
  lemma StripBosAppendBos(t: Tokenizer, ids: seq<int>)
    requires Bos in t.encoder
    ensures StripBos(t, AppendBos(t, ids).value) == Success(ids)
  {
  }

  lemma StripEosAppendEos(t: Tokenizer, ids: seq<int>)
    requires Eos in t.encoder
    ensures StripEos(t, AppendEos(t, ids).value) == Success(ids)
  {
    assert (ids + [t.encoder[Eos]])[..|ids|] == ids;
  }

  /** Byte-mapping the chunks one by one spells the byte-mapped text. */
  lemma {:induction false} EncodeChunksConcat(m: ByteMap, chunks: seq<seq<byte>>)
    requires EncodeChunks(m, chunks).Success?
    ensures LookupAll(m.encoder, Concat(chunks)) == Success(Concat(EncodeChunks(m, chunks).value))
    decreases |chunks|
  {
    var cs := EncodeChunks(m, chunks).value;
    if chunks != [] {
      EncodeChunksConcat(m, chunks[1..]);
      assert EncodeChunks(m, chunks[1..]).value == cs[1..];
      assert LookupAll(m.encoder, chunks[0]) == Success(cs[0]);
      LookupAllAppend(m.encoder, chunks[0], Concat(chunks[1..]));
    }
  }

  /** Decoding what was encoded gives back the text's bytes, provided the
      byte map and the vocabulary are each inverted by their decoders and
      the pre-tokenizer drops nothing. Ranks play no part: merging never
      changes what the fragments spell. */
  lemma EncodeDecodeRoundTrip(t: Tokenizer, text: seq<byte>)
    requires ValidByteMap(t.bytes) && ValidVocab(t) && Covers(t, text)
    requires Encode(t, text).Success?
    ensures Decode(t, Encode(t, text).value) == Success(text)
  {
    var chunks := ByteEncode(t, text).value;
    var frags := Tokenize(t, text).value;
    var ids := Encode(t, text).value;
    assert frags == BpeChunks(t.bpeRanks, chunks);
    assert ids == LookupAll(t.encoder, frags).value;
    LookupAllInverse(t.encoder, t.decoder, frags);
    assert LookupAll(t.decoder, ids) == Success(frags);
    forall i | 0 <= i < |chunks| ensures ' ' !in chunks[i] {
      assert EncodeBytes(t.bytes, t.preTokenize(text)[i]) == Success(chunks[i]);
    }
    assert Concat(frags) == Concat(chunks);
    EncodeChunksConcat(t.bytes, t.preTokenize(text));
    assert LookupAll(t.bytes.encoder, text) == Success(Concat(chunks));
    LookupAllInverse(t.bytes.encoder, t.bytes.decoder, text);
  }

  /** The two test scenarios together: `<s>` and `</s>` framing put the
      reserved ids first and last, stripping them gives back the encoded
      ids, and those decode to the text. */
  lemma FramedRoundTrip(t: Tokenizer, text: seq<byte>)
    requires ValidByteMap(t.bytes) && ValidVocab(t) && Covers(t, text)
    requires Encode(t, text).Success?
    requires Bos in t.encoder && Eos in t.encoder
    ensures var ids := Encode(t, text).value;
      var framed := AppendEos(t, AppendBos(t, ids).value).value;
      && framed[0] == t.encoder[Bos]
      && framed[|framed| - 1] == t.encoder[Eos]
      && StripBos(t, StripEos(t, framed).value) == Success(ids)
      && Decode(t, StripBos(t, StripEos(t, framed).value).value) == Success(text)
  {
    var ids := Encode(t, text).value;
    var withBos := AppendBos(t, ids).value;
    StripEosAppendEos(t, withBos);
    StripBosAppendBos(t, ids);
    EncodeDecodeRoundTrip(t, text);
  }
}
