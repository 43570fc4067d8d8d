/** walletseed/seed.go: a wallet seed as a list of words ending in a checksum. */
module Seeds {
  import opened Options
  import opened PgpWords

  const MIN_SEED_BYTES := 16
  const MAX_SEED_BYTES := 64

  /** The checksum of a seed, the first byte of a double SHA-256. */
  type Checksum = seq<Byte> -> Byte

  datatype Decoded = Seed(bytes: seq<Byte>) | BadHex | BadWords(error: Error) | BadChecksum | BadLength

  predicate LengthOk(seed: seq<Byte>) {
    MIN_SEED_BYTES <= |seed| <= MAX_SEED_BYTES
  }

  method EncodeMnemonicSlice(list: seq<string>, sum: Checksum, seed: seq<Byte>) returns (words: seq<string>)
    requires |list| == 512
    ensures words == EncodedFrom(list, seed + [sum(seed)], 0)
  {
    var a := new string[|seed| + 1](_ => "");
    var i := 0;
    while i < |seed|
      invariant 0 <= i <= |seed|
      invariant forall k :: 0 <= k < i ==> a[k] == ByteToMnemonic(list, seed[k], k)
    {
      a[i] := ByteToMnemonic(list, seed[i], i);
      i := i + 1;
    }
    var checksum := sum(seed);
    a[|seed|] := ByteToMnemonic(list, checksum, |seed|);
    words := a[..];
    EncodedAre(list, seed + [sum(seed)], 0, words);
  }

  lemma {:induction false} EncodedAre(list: seq<string>, bytes: seq<Byte>, idx: nat, words: seq<string>)
    requires |list| == 512 && |words| == |bytes|
    requires forall k :: 0 <= k < |bytes| ==> words[k] == ByteToMnemonic(list, bytes[k], idx + k)
    ensures words == EncodedFrom(list, bytes, idx)
  {
    if bytes != [] {
      EncodedAre(list, bytes[1..], idx + 1, words[1..]);
      assert words == [words[0]] + words[1..];
    }
  }

  /** Words separated by single spaces. */
  function Join(words: seq<string>): string
    requires words != []
  {
    if |words| == 1 then words[0] else Join(words[..|words| - 1]) + " " + words[|words| - 1]
  }

  method EncodeMnemonic(list: seq<string>, sum: Checksum, seed: seq<Byte>) returns (mnemonic: string)
    requires |list| == 512
    ensures mnemonic ==
            if seed == [] then " " + ByteToMnemonic(list, sum(seed), 0) else Join(EncodedFrom(list, seed + [sum(seed)], 0))
  {
    hide EncodedFrom, ByteToMnemonic, Join;
    var buf := "";
    ghost var words := EncodedFrom(list, seed + [sum(seed)], 0);
    EncodedAt(list, seed + [sum(seed)], 0);
    var i := 0;
    while i < |seed|
      invariant 0 <= i <= |seed|
      invariant if i == 0 then buf == "" else buf == Join(words[..i])
    {
      JoinMore(words, i);
      if i != 0 {
        buf := buf + " ";
      }
      buf := buf + ByteToMnemonic(list, seed[i], i);
      i := i + 1;
    }
    JoinMore(words, |seed|);
    assert words[..|seed| + 1] == words;
    var checksum := sum(seed);
    buf := buf + " ";
    mnemonic := buf + ByteToMnemonic(list, checksum, |seed|);
  }

  lemma JoinMore(words: seq<string>, i: nat)
    requires i < |words|
    ensures Join(words[..i + 1]) == if i == 0 then words[0] else Join(words[..i]) + " " + words[i]
  {
    assert words[..i + 1][..i] == words[..i];
  }

  lemma {:induction false} EncodedAt(list: seq<string>, bytes: seq<Byte>, idx: nat)
    requires |list| == 512
    ensures forall k :: 0 <= k < |bytes| ==> EncodedFrom(list, bytes, idx)[k] == ByteToMnemonic(list, bytes[k], idx + k)
  {
    if bytes != [] {
      EncodedAt(list, bytes[1..], idx + 1);
    }
  }

  /** The words are those of the seed's bytes and of its checksum, each byte's first word
      at even and its second at odd positions. */
  lemma WordsExactly(list: seq<string>, sum: Checksum, seed: seq<Byte>)
    requires |list| == 512
    ensures var words := EncodedFrom(list, seed + [sum(seed)], 0);
            && |words| == |seed| + 1
            && (forall k :: 0 <= k < |seed| ==> words[k] == list[2 * seed[k] + k % 2])
            && words[|seed|] == list[2 * sum(seed) + |seed| % 2]
  {
    var bytes := seed + [sum(seed)];
    EncodedAt(list, bytes, 0);
    hide EncodedFrom;
    forall k | 0 <= k < |bytes|
      ensures ByteToMnemonic(list, bytes[k], 0 + k) == list[2 * bytes[k] + k % 2]
    {
    }
  }

  /** The pieces between single spaces. */
  function Split(s: string): (pieces: seq<string>)
    ensures pieces != []
  {
    if s == "" then [""]
    else
      var n := |s| - 1;
      var pieces := Split(s[..n]);
      if s[n] == ' ' then pieces + [""]
      else pieces[|pieces| - 1 := pieces[|pieces| - 1] + [s[n]]]
  }

  lemma {:induction false} SplitWord(s: string, w: string)
    requires forall i :: 0 <= i < |w| ==> w[i] != ' '
    ensures Split(s + w) == Split(s)[|Split(s)| - 1 := Split(s)[|Split(s)| - 1] + w]
  {
    if w == "" {
      assert s + w == s;
      assert Split(s)[|Split(s)| - 1] + w == Split(s)[|Split(s)| - 1];
    } else {
      var n := |w| - 1;
      SplitWord(s, w[..n]);
      assert (s + w)[|s + w| - 1] == w[n];
      assert (s + w)[..|s + w| - 1] == s + w[..n];
      assert Split(s)[|Split(s)| - 1] + w[..n] + [w[n]] == Split(s)[|Split(s)| - 1] + w;
    }
  }

  lemma SplitNext(joined: string, last: string)
    requires WordOk(last)
    ensures Split(joined + " " + last) == Split(joined) + [last]
  {
    forall i | 0 <= i < |last|
      ensures last[i] != ' '
    {
      assert last[i] in last;
    }
    var head := joined + " ";
    assert head[..|head| - 1] == joined;
    assert Split(head) == Split(joined) + [""];
    SplitWord(head, last);
    assert "" + last == last;
  }

  /** Splitting undoes joining, if no word has a space. */
  lemma {:induction false} SplitJoin(words: seq<string>)
    requires words != [] && forall w :: w in words ==> WordOk(w)
    ensures Split(Join(words)) == words
  {
    var n := |words| - 1;
    var last := words[n];
    assert WordOk(last);
    if n == 0 {
      SplitOne(last);
      assert words == [last];
    } else {
      SplitJoin(words[..n]);
      SplitNext(Join(words[..n]), last);
      assert words == words[..n] + [last];
    }
  }

  /** And joining undoes splitting, for every string; no piece has a space. */
  lemma {:induction false} JoinSplit(s: string)
    ensures Join(Split(s)) == s && forall k :: 0 <= k < |Split(s)| ==> ' ' !in Split(s)[k]
  {
    if s != "" {
      var n := |s| - 1;
      JoinSplit(s[..n]);
      var before, pieces := Split(s[..n]), Split(s);
      assert s == s[..n] + [s[n]];
      if s[n] == ' ' {
        assert pieces[..|pieces| - 1] == before;
      } else {
        assert pieces[..|pieces| - 1] == before[..|before| - 1];
      }
    }
  }

  lemma SplitOne(w: string)
    requires WordOk(w)
    ensures Split(w) == [w]
  {
    forall i | 0 <= i < |w|
      ensures w[i] != ' '
    {
      assert w[i] in w;
    }
    SplitWord("", w);
    assert "" + w == w;
  }

  /** Hexadecimal digits in pairs. */
  function HexDigit(c: char): int {
    if '0' <= c <= '9' then c as int - '0' as int
    else if 'a' <= c <= 'f' then c as int - 'a' as int + 10
    else if 'A' <= c <= 'F' then c as int - 'A' as int + 10
    else -1
  }

  function HexDecode(s: string): Option<seq<Byte>> {
    if s == "" then Some([])
    else if |s| == 1 || HexDigit(s[0]) < 0 || HexDigit(s[1]) < 0 then None
    else
      var rest := HexDecode(s[2..]);
      if rest.None? then None else Some([ByteOfDigits(HexDigit(s[0]), HexDigit(s[1]))] + rest.value)
  }

  function ByteOfDigits(high: int, low: int): Byte
    requires 0 <= high < 16 && 0 <= low < 16
  {
    16 * high + low
  }

  const DIGITS := "0123456789abcdef"

  /** Two lower-case digits for each byte. */
  function HexEncode(bytes: seq<Byte>): string {
    if bytes == [] then "" else [DIGITS[bytes[0] / 16], DIGITS[bytes[0] % 16]] + HexEncode(bytes[1..])
  }

  lemma DigitExactly(c: char, d: int)
    requires 0 <= d < 16
    ensures HexDigit(c) == d <==> ToLowerChar(c) == DIGITS[d]
  {
  }

  /** Hexadecimal input decodes to bytes exactly if, case aside, it is their digits. */
  lemma {:induction false} HexExactly(s: string, bytes: seq<Byte>)
    ensures HexDecode(s) == Some(bytes) <==> ToLower(s) == HexEncode(bytes)
    decreases |s|
  {
    if |s| < 2 {
      if bytes != [] {
        assert |HexEncode(bytes)| >= 2;
      }
      assert |ToLower(s)| == |s|;
    } else if bytes == [] {
      assert |ToLower(s)| == |s|;
    } else {
      HexExactly(s[2..], bytes[1..]);
      HexHead(s, bytes);
    }
  }

  lemma HexHead(s: string, bytes: seq<Byte>)
    requires |s| >= 2 && bytes != [] && (HexDecode(s[2..]) == Some(bytes[1..]) <==> ToLower(s[2..]) == HexEncode(bytes[1..]))
    ensures HexDecode(s) == Some(bytes) <==> ToLower(s) == HexEncode(bytes)
  {
    hide HexDigit, ToLowerChar, HexDecode, HexEncode;
    DigitExactly(s[0], bytes[0] / 16);
    DigitExactly(s[1], bytes[0] % 16);
    DecodeStep(s, bytes);
    LowerStep(s, bytes);
  }

  lemma DecodeStep(s: string, bytes: seq<Byte>)
    requires |s| >= 2 && bytes != []
    ensures HexDecode(s) == Some(bytes) <==>
            HexDigit(s[0]) == bytes[0] / 16 && HexDigit(s[1]) == bytes[0] % 16 && HexDecode(s[2..]) == Some(bytes[1..])
  {
    assert bytes == [bytes[0]] + bytes[1..];
    DigitRange(s[0]);
    DigitRange(s[1]);
    hide HexDigit;
  }

  lemma DigitRange(c: char)
    ensures -1 <= HexDigit(c) < 16
  {
  }

  lemma LowerStep(s: string, bytes: seq<Byte>)
    requires |s| >= 2 && bytes != []
    ensures ToLower(s) == HexEncode(bytes) <==>
            ToLowerChar(s[0]) == DIGITS[bytes[0] / 16] && ToLowerChar(s[1]) == DIGITS[bytes[0] % 16]
            && ToLower(s[2..]) == HexEncode(bytes[1..])
  {
    hide ToLowerChar;
    var pair := [DIGITS[bytes[0] / 16], DIGITS[bytes[0] % 16]];
    assert ToLower(s) == [ToLowerChar(s[0]), ToLowerChar(s[1])] + ToLower(s[2..]);
    assert HexEncode(bytes) == pair + HexEncode(bytes[1..]);
    SameParts([ToLowerChar(s[0]), ToLowerChar(s[1])], ToLower(s[2..]), pair, HexEncode(bytes[1..]));
  }

  lemma SameParts(a: string, x: string, b: string, y: string)
    requires |a| == |b|
    ensures a + x == b + y <==> a == b && x == y
  {
    if a + x == b + y {
      assert a == (a + x)[..|a|] == (b + y)[..|b|] == b;
      assert x == (a + x)[|a|..] == (b + y)[|b|..] == y;
    }
  }

  /** A single piece of input gives a seed exactly if it is the seed's digits. */
  lemma HexOfSeed(indexes: map<string, nat>, sum: Checksum, piece: string, seed: seq<Byte>)
    ensures UserInput(indexes, sum, [piece]) == Seed(seed) <==> LengthOk(seed) && ToLower(piece) == HexEncode(seed)
  {
    HexExactly(piece, seed);
  }

  /** The words are those of at least two bytes of which the last is not the checksum of
      the others. */
  ghost predicate WrongSum(list: seq<string>, sum: Checksum, words: seq<string>, bytes: seq<Byte>)
    requires |list| == 512
  {
    |bytes| >= 2 && Cleaned(words) == LoweredFrom(list, bytes, 0) && sum(bytes[..|bytes| - 1]) != bytes[|bytes| - 1]
  }

  /** Words are rejected for their checksum exactly if they are such words, whatever their
      number. */
  lemma ChecksumExactly(list: seq<string>, indexes: map<string, nat>, sum: Checksum, words: seq<string>)
    requires ListOk(list) && IndexesOf(list, indexes) && |words| != 1
    ensures UserInput(indexes, sum, words) == BadChecksum <==> exists bytes: seq<Byte> :: WrongSum(list, sum, words, bytes)
  {
    var decoded := DecodeFrom(indexes, words, 0);
    SumChecked(indexes, sum, words);
    if decoded.Ok? {
      SumWrong(list, indexes, sum, words, decoded.value);
    }
    hide UserInput, DecodeFrom, ListOk, IndexesOf, WrongSum;
    if bytes: seq<Byte> :| WrongSum(list, sum, words, bytes) {
      SumWrong(list, indexes, sum, words, bytes);
    }
  }

  lemma SumChecked(indexes: map<string, nat>, sum: Checksum, words: seq<string>)
    requires |words| != 1
    ensures var decoded := DecodeFrom(indexes, words, 0);
            UserInput(indexes, sum, words) == BadChecksum <==>
            decoded.Ok? && |decoded.value| >= 2 && sum(decoded.value[..|decoded.value| - 1]) != decoded.value[|decoded.value| - 1]
  {
    hide DecodeFrom;
  }

  lemma SumWrong(list: seq<string>, indexes: map<string, nat>, sum: Checksum, words: seq<string>, bytes: seq<Byte>)
    requires ListOk(list) && IndexesOf(list, indexes)
    ensures WrongSum(list, sum, words, bytes) <==>
            DecodeFrom(indexes, words, 0) == Ok(bytes) && |bytes| >= 2 && sum(bytes[..|bytes| - 1]) != bytes[|bytes| - 1]
  {
    DecodesExactly(list, indexes, words, bytes, 0);
    hide DecodeFrom, Cleaned, LoweredFrom, IndexesOf;
  }

  /** What the user typed: a single piece is hexadecimal, several are words. */
  method DecodeUserInput(indexes: map<string, nat>, sum: Checksum, input: string) returns (r: Decoded)
    ensures r == UserInput(indexes, sum, Split(TrimSpace(input)))
  {
    var words := Split(TrimSpace(input));
    var seed: seq<Byte> := [];
    if |words| == 1 {
      var hex := HexDecode(words[0]);
      if hex.None? {
        return BadHex;
      }
      seed := hex.value;
    } else if |words| > 1 {
      var decoded := DecodeMnemonics(indexes, words);
      if decoded.Err? {
        return BadWords(decoded.error);
      }
      var bytes := decoded.value;
      if |bytes| >= 2 {
        if sum(bytes[..|bytes| - 1]) != bytes[|bytes| - 1] {
          return BadChecksum;
        }
        seed := bytes[..|bytes| - 1];
      }
    }
    if |seed| < MIN_SEED_BYTES || |seed| > MAX_SEED_BYTES {
      return BadLength;
    }
    r := Seed(seed);
  }

  /** The seed of pieces of input. */
  function UserInput(indexes: map<string, nat>, sum: Checksum, words: seq<string>): Decoded {
    if |words| == 1 then
      var hex := HexDecode(words[0]);
      if hex.None? then BadHex else Checked(hex.value)
    else
      var decoded := DecodeFrom(indexes, words, 0);
      if decoded.Err? then BadWords(decoded.error)
      else
        var n := |decoded.value| - 1;
        if n < 1 then BadLength
        else if sum(decoded.value[..n]) != decoded.value[n] then BadChecksum
        else Checked(decoded.value[..n])
  }

  function Checked(seed: seq<Byte>): Decoded {
    if LengthOk(seed) then Seed(seed) else BadLength
  }

  /** The words of a seed, in whatever case and with blanks between them, are the
      only words that decode to it. */
  lemma WordsOfSeed(list: seq<string>, indexes: map<string, nat>, sum: Checksum, words: seq<string>, seed: seq<Byte>)
    requires ListOk(list) && IndexesOf(list, indexes) && |words| != 1
    ensures UserInput(indexes, sum, words) == Seed(seed) <==>
            LengthOk(seed) && Cleaned(words) == LoweredFrom(list, seed + [sum(seed)], 0)
  {
    DecodesExactly(list, indexes, words, seed + [sum(seed)], 0);
    hide DecodeFrom, Cleaned, LoweredFrom, IndexesOf;
    SeedOfBytes(indexes, sum, words, seed);
  }

  lemma SeedOfBytes(indexes: map<string, nat>, sum: Checksum, words: seq<string>, seed: seq<Byte>)
    requires |words| != 1
    ensures UserInput(indexes, sum, words) == Seed(seed) <==>
            LengthOk(seed) && DecodeFrom(indexes, words, 0) == Ok(seed + [sum(seed)])
  {
    hide DecodeFrom;
    var decoded := DecodeFrom(indexes, words, 0);
    assert (seed + [sum(seed)])[..|seed|] == seed;
    if decoded.Ok? && |decoded.value| > 0 {
      var n := |decoded.value| - 1;
      assert decoded.value == decoded.value[..n] + [decoded.value[n]];
    }
  }

  /** Decoding the mnemonic of a seed gives the seed back. */
  lemma MnemonicRoundTrip(list: seq<string>, indexes: map<string, nat>, sum: Checksum, seed: seq<Byte>)
    requires ListOk(list) && IndexesOf(list, indexes) && LengthOk(seed)
    ensures UserInput(indexes, sum, Split(TrimSpace(Join(EncodedFrom(list, seed + [sum(seed)], 0))))) == Seed(seed)
  {
    var bytes := seed + [sum(seed)];
    var words := EncodedFrom(list, bytes, 0);
    EncodedOk(list, bytes, 0);
    JoinEnds(words);
    TrimNothing(Join(words));
    SplitJoin(words);
    CleanedEncoded(list, bytes, 0);
    WordsOfSeed(list, indexes, sum, words, seed);
  }

  lemma {:induction false} EncodedOk(list: seq<string>, bytes: seq<Byte>, idx: nat)
    requires ListOk(list)
    ensures forall w :: w in EncodedFrom(list, bytes, idx) ==> WordOk(w)
  {
    if bytes != [] {
      EncodedOk(list, bytes[1..], idx + 1);
    }
  }

  lemma {:induction false} CleanedEncoded(list: seq<string>, bytes: seq<Byte>, idx: nat)
    requires ListOk(list)
    ensures Cleaned(EncodedFrom(list, bytes, idx)) == LoweredFrom(list, bytes, idx)
  {
    if bytes != [] {
      CleanedEncoded(list, bytes[1..], idx + 1);
      var w := ByteToMnemonic(list, bytes[0], idx);
      assert WordOk(w);
      TrimNothing(w);
    }
  }

  lemma TrimNothing(s: string)
    requires s != "" && !IsSpace(s[0]) && !IsSpace(s[|s| - 1])
    ensures TrimSpace(s) == s
  {
  }

  lemma {:induction false} JoinEnds(words: seq<string>)
    requires words != [] && forall w :: w in words ==> WordOk(w)
    ensures var s := Join(words); s != "" && !IsSpace(s[0]) && !IsSpace(s[|s| - 1])
  {
    assert WordOk(words[|words| - 1]);
    if |words| > 1 {
      JoinEnds(words[..|words| - 1]);
    }
  }
}
