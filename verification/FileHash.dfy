/** The hash of a file that arrives in chunks, printed in hexadecimal. */
module FileHash {
  import opened Wrappers
  import opened Sha256Spec
  import opened Sha256

  // ---------- hashing a file ----------

  /** What one read of the file delivers; an empty chunk is the end of the file. */
  datatype Read = Chunk(bytes: seq<Byte>) | Failed

  /** The bytes before the end of the file, if no read fails before it. */
  function Contents(file: seq<Read>): Option<seq<Byte>>
    decreases |file|
  {
    if file == [] then Some([])
    else if file[0].Failed? then None
    else if file[0].bytes == [] then Some([])
    else
      Prepend(file[0].bytes, Contents(file[1..]))
  }

  function Prepend(prefix: seq<Byte>, rest: Option<seq<Byte>>): Option<seq<Byte>> {
    if rest.None? then None else Some(prefix + rest.value)
  }

  lemma PrependTwice(a: seq<Byte>, b: seq<Byte>, rest: Option<seq<Byte>>)
    ensures Prepend(a, Prepend(b, rest)) == Prepend(a + b, rest)
    ensures Prepend([], rest) == rest
    ensures Prepend(a, Some([])) == Some(a)
  {
    if rest.Some? {
      assert a + (b + rest.value) == (a + b) + rest.value;
      assert [] + rest.value == rest.value;
    }
    assert a + [] == a;
  }

  function HexDigit(nibble: nat): char
    requires nibble < 16
  {
    if nibble < 10 then ('0' as int + nibble) as char else ('A' as int + nibble - 10) as char
  }

  function ToHex(bytes: seq<Byte>): (hex: string)
    ensures |hex| == 2 * |bytes|
  {
    if bytes == [] then ""
    else ToHex(bytes[..|bytes| - 1]) + [HexDigit(bytes[|bytes| - 1] / 16), HexDigit(bytes[|bytes| - 1] % 16)]
  }

  function Concat(chunks: seq<seq<Byte>>): seq<Byte> {
    if chunks == [] then [] else chunks[0] + Concat(chunks[1..])
  }

  function Reads(chunks: seq<seq<Byte>>): seq<Read> {
    if chunks == [] then [] else [Chunk(chunks[0])] + Reads(chunks[1..])
  }

  /** What is read are the chunks up to the first empty one; a failure before that
      means failure, and what comes after it does not matter. */
  lemma {:induction false} ContentsOfReads(chunks: seq<seq<Byte>>, after: seq<Read>)
    requires forall c <- chunks :: c != []
    ensures Contents(Reads(chunks)) == Some(Concat(chunks))
    ensures Contents(Reads(chunks) + [Chunk([])] + after) == Some(Concat(chunks))
    ensures Contents(Reads(chunks) + [Failed] + after) == None
    decreases |chunks|
  {
    if chunks == [] {
      assert Reads(chunks) + [Chunk([])] + after == [Chunk([])] + after;
      assert Reads(chunks) + [Failed] + after == [Failed] + after;
    } else {
      var first, rest := Chunk(chunks[0]), Reads(chunks[1..]);
      assert chunks[0] in chunks;
      forall c | c in chunks[1..] ensures c != [] {
        assert c in chunks;
      }
      ContentsOfReads(chunks[1..], after);
      hide Reads, Concat;
      FirstRead(first, rest);
      FirstRead(first, rest + [Chunk([])] + after);
      FirstRead(first, rest + [Failed] + after);
      assert [first] + rest + [Chunk([])] + after == [first] + (rest + [Chunk([])] + after);
      assert [first] + rest + [Failed] + after == [first] + (rest + [Failed] + after);
    }
  }

  lemma FirstRead(first: Read, rest: seq<Read>)
    requires first.Chunk? && first.bytes != []
    ensures Contents([first] + rest) == Prepend(first.bytes, Contents(rest))
  {
    assert ([first] + rest)[1..] == rest;
  }

  /** However a message is cut into chunks, the printed digest is the same. */
  lemma ChunksDoNotMatter(a: seq<seq<Byte>>, b: seq<seq<Byte>>)
    requires (forall c <- a :: c != []) && (forall c <- b :: c != []) && Concat(a) == Concat(b)
    ensures Contents(Reads(a)) == Contents(Reads(b)) == Some(Concat(a))
  {
    ContentsOfReads(a, []);
    ContentsOfReads(b, []);
  }

  lemma ContentsStep(file: seq<Read>, i: nat, before: seq<Byte>)
    requires i < |file| && file[i].Chunk? && file[i].bytes != []
    ensures Prepend(before, Contents(file[i..])) == Prepend(before + file[i].bytes, Contents(file[i + 1..]))
  {
    assert file[i..][1..] == file[i + 1..];
    PrependTwice(before, file[i].bytes, Contents(file[i + 1..]));
  }

  lemma ContentsEnd(file: seq<Read>, i: nat, before: seq<Byte>)
    requires i <= |file|
    ensures i == |file| || (file[i].Chunk? && file[i].bytes == []) ==>
              Prepend(before, Contents(file[i..])) == Some(before)
    ensures i < |file| && file[i].Failed? ==> Prepend(before, Contents(file[i..])) == None
  {
    PrependTwice(before, [], Some([]));
  }

  /** However the file arrives in chunks, the result is the digest of its bytes. */
  method FileHex(file: seq<Read>) returns (result: Option<string>)
    ensures Contents(file).None? ==> result == None
    ensures Contents(file).Some? ==> result == Some(ToHex(Digest(Contents(file).value)))
  {
    hide *;
    var hash := new Hasher();
    var i := 0;
    assert file[0..] == file;
    PrependTwice([], [], Contents(file));
    while i < |file|
      invariant hash.Valid() && fresh(hash) && fresh(hash.state) && fresh(hash.block)
      invariant i <= |file|
      invariant Contents(file) == Prepend(hash.message, Contents(file[i..]))
    {
      ContentsEnd(file, i, hash.message);
      if file[i].Failed? {
        return None;
      }
      if file[i].bytes == [] {
        break;
      }
      ContentsStep(file, i, hash.message);
      hash.Update(file[i].bytes);
      i := i + 1;
    }
    ContentsEnd(file, i, hash.message);
    var digest := hash.Finalize();
    var hex := ToHex(digest);
    return Some(hex);
  }

  /** The byte with these two digits. */
  function FromNibbles(high: nat, low: nat): Byte {
    (16 * high + low) % 0x100
  }

  /** Decimal digits and upper-case letters. */
  function DigitValue(c: char): Option<nat> {
    if '0' <= c <= '9' then Some(c as nat - '0' as nat)
    else if 'A' <= c <= 'F' then Some(c as nat - 'A' as nat + 10)
    else None
  }

  lemma DigitsRead(n: nat)
    requires n < 16
    ensures DigitValue(HexDigit(n)) == Some(n)
  {
  }

  /** Reads two digits a byte, the high one first. */
  function FromHex(text: string): Option<seq<Byte>> {
    if text == "" then Some([])
    else if |text| < 2 then None
    else
      var n := |text| - 2;
      var rest, high, low := FromHex(text[..n]), DigitValue(text[n]), DigitValue(text[n + 1]);
      if rest.None? || high.None? || low.None? then None
      else Some(rest.value + [FromNibbles(high.value, low.value)])
  }

  lemma ToHexParts(bytes: seq<Byte>)
    requires bytes != []
    ensures var text, last := ToHex(bytes), |bytes| - 1;
            && |text| == 2 * last + 2 && text[..2 * last] == ToHex(bytes[..last])
            && text[2 * last] == HexDigit(bytes[last] / 16) && text[2 * last + 1] == HexDigit(bytes[last] % 16)
  {
    hide HexDigit;
  }

  lemma Nibbles(b: Byte)
    ensures FromNibbles(b / 16, b % 16) == b
  {
  }

  /** Reading the printed digest back gives its bytes. */
  lemma {:induction false} HexRoundTrip(bytes: seq<Byte>)
    ensures FromHex(ToHex(bytes)) == Some(bytes)
    decreases |bytes|
  {
    hide HexDigit, DigitValue, FromNibbles, ToHex;
    if bytes == [] {
      NoDigits();
    } else {
      var last := |bytes| - 1;
      HexRoundTrip(bytes[..last]);
      ToHexParts(bytes);
      DigitsRead(bytes[last] / 16);
      DigitsRead(bytes[last] % 16);
      Nibbles(bytes[last]);
      assert bytes[..last] + [bytes[last]] == bytes;
    }
  }

  lemma NoDigits()
    ensures ToHex([]) == ""
  {
  }

  /** Two digests print alike only if they are equal. */
  lemma ToHexInjective(a: seq<Byte>, b: seq<Byte>)
    requires ToHex(a) == ToHex(b)
    ensures a == b
  {
    hide *;
    HexRoundTrip(a);
    HexRoundTrip(b);
  }
}
