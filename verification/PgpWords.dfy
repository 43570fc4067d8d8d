/** pgpwordlist/pgpwordlist.go: bytes as words of the PGP word list.  Every byte has
    two words, one for even and one for odd positions, so that a missing word or two
    swapped words are noticed. */
module PgpWords {

  type Byte = b: int | 0 <= b < 256 witness 0

  datatype Error = NotInList(word: string) | Misplaced(word: string, index: nat)

  datatype Result<T> = Ok(value: T) | Err(error: Error)

  predicate IsSpace(c: char) {
    c == ' ' || ('\t' <= c && c <= '\r')
  }

  function TrimLeft(s: string): (t: string)
    ensures t == [] || !IsSpace(t[0])
  {
    if s == [] || !IsSpace(s[0]) then s else TrimLeft(s[1..])
  }

  function TrimRight(s: string): string {
    if s == [] || !IsSpace(s[|s| - 1]) then s else TrimRight(s[..|s| - 1])
  }

  function TrimSpace(s: string): string {
    TrimRight(TrimLeft(s))
  }

  function ToLowerChar(c: char): char {
    if 'A' <= c && c <= 'Z' then (c as int - 'A' as int + 'a' as int) as char else c
  }

  function ToLower(s: string): string {
    seq(|s|, i requires 0 <= i < |s| => ToLowerChar(s[i]))
  }

  /** Two words for each of the 256 bytes, distinct whatever their case, and without
      white space. */
  ghost predicate ListOk(list: seq<string>) {
    && |list| == 512
    && (forall i :: 0 <= i < 512 ==> WordOk(list[i]))
    && (forall i, j :: 0 <= i < j < 512 ==> ToLower(list[i]) != ToLower(list[j]))
  }

  predicate WordOk(w: string) {
    w != "" && forall c :: c in w ==> !IsSpace(c)
  }

  function ByteToMnemonic(list: seq<string>, b: Byte, index: nat): string
    requires |list| == 512
  {
    list[if index % 2 != 0 then 2 * b + 1 else 2 * b]
  }

  /** Where a lower-case word is in the list. */
  ghost predicate IndexesOf(list: seq<string>, indexes: map<string, nat>) {
    && (forall w :: w in indexes ==> indexes[w] < |list| && ToLower(list[indexes[w]]) == w)
    && (forall i :: 0 <= i < |list| ==> ToLower(list[i]) in indexes)
  }

  method Indexes(list: seq<string>) returns (indexes: map<string, nat>)
    requires ListOk(list)
    ensures IndexesOf(list, indexes)
  {
    indexes := map[];
    var i := 0;
    while i < |list|
      invariant 0 <= i <= |list|
      invariant forall w :: w in indexes ==> indexes[w] < i && ToLower(list[indexes[w]]) == w
      invariant forall k :: 0 <= k < i ==> ToLower(list[k]) in indexes
    {
      indexes := indexes[ToLower(list[i]) := i];
      i := i + 1;
    }
  }

  /** The bytes of words counted from position `idx`; blank words do not count. */
  function DecodeFrom(indexes: map<string, nat>, words: seq<string>, idx: nat): Result<seq<Byte>> {
    if words == [] then Ok([])
    else
      var w := TrimSpace(words[0]);
      if w == "" then DecodeFrom(indexes, words[1..], idx)
      else if ToLower(w) !in indexes then Err(NotInList(w))
      else if indexes[ToLower(w)] % 2 != idx % 2 then Err(Misplaced(w, idx))
      else
        After([ByteOf(indexes[ToLower(w)])], DecodeFrom(indexes, words[1..], idx + 1))
  }

  function ByteOf(index: nat): Byte {
    index / 2 % 256
  }

  /** Decodes words into their bytes, skipping blank ones. */
  method DecodeMnemonics(indexes: map<string, nat>, words: seq<string>) returns (r: Result<seq<Byte>>)
    ensures r == DecodeFrom(indexes, words, 0)
  {
    var decoded := new Byte[|words|](_ => 0);
    var idx := 0;
    var i := 0;
    assert words[i..] == words;
    AfterNothing(decoded[..idx], DecodeFrom(indexes, words, 0));
    while i < |words|
      invariant 0 <= idx <= i <= |words|
      invariant DecodeFrom(indexes, words, 0) == After(decoded[..idx], DecodeFrom(indexes, words[i..], idx))
    {
      hide TrimSpace, ToLower, ByteOf;
      var w := TrimSpace(words[i]);
      assert words[i..][0] == words[i] && words[i..][1..] == words[i + 1..];
      if w != "" {
        if ToLower(w) !in indexes {
          return Err(NotInList(w));
        }
        var b := indexes[ToLower(w)];
        if b % 2 != idx % 2 {
          return Err(Misplaced(w, idx));
        }
        AfterOne(decoded[..idx], ByteOf(b), DecodeFrom(indexes, words[i + 1..], idx + 1));
        ghost var before := decoded[..idx];
        decoded[idx] := ByteOf(b);
        idx := idx + 1;
        assert decoded[..idx] == before + [ByteOf(b)];
      }
      i := i + 1;
    }
    assert words[i..] == [] && decoded[..idx] + [] == decoded[..idx];
    r := Ok(decoded[..idx]);
  }

  /** What is decoded so far, and then the rest. */
  function After(bytes: seq<Byte>, rest: Result<seq<Byte>>): Result<seq<Byte>> {
    if rest.Ok? then Ok(bytes + rest.value) else rest
  }

  lemma AfterNothing(none: seq<Byte>, rest: Result<seq<Byte>>)
    requires none == []
    ensures After(none, rest) == rest
  {
    if rest.Ok? {
      assert none + rest.value == rest.value;
    }
  }

  lemma AfterOne(bytes: seq<Byte>, b: Byte, rest: Result<seq<Byte>>)
    ensures After(bytes, After([b], rest)) == After(bytes + [b], rest)
  {
    if rest.Ok? {
      assert bytes + ([b] + rest.value) == bytes + [b] + rest.value;
    }
  }

  // ----- what decodes, and what does not -----

  /** The words that count, without white space and in lower case. */
  function Cleaned(words: seq<string>): seq<string> {
    if words == [] then []
    else if TrimSpace(words[0]) == "" then Cleaned(words[1..])
    else [ToLower(TrimSpace(words[0]))] + Cleaned(words[1..])
  }

  /** The words of bytes counted from position `idx`. */
  function EncodedFrom(list: seq<string>, bytes: seq<Byte>, idx: nat): (words: seq<string>)
    requires |list| == 512
    ensures |words| == |bytes|
  {
    if bytes == [] then [] else [ByteToMnemonic(list, bytes[0], idx)] + EncodedFrom(list, bytes[1..], idx + 1)
  }

  /** The same in lower case. */
  function LoweredFrom(list: seq<string>, bytes: seq<Byte>, idx: nat): seq<string>
    requires |list| == 512
  {
    if bytes == [] then [] else [ToLower(ByteToMnemonic(list, bytes[0], idx))] + LoweredFrom(list, bytes[1..], idx + 1)
  }

  lemma WordIndex(list: seq<string>, indexes: map<string, nat>, i: nat)
    requires ListOk(list) && IndexesOf(list, indexes) && i < 512
    ensures ToLower(list[i]) in indexes && indexes[ToLower(list[i])] == i
  {
    hide ToLower;
    var j := indexes[ToLower(list[i])];
  }

  lemma BytePair(index: nat, b: Byte, odd: nat)
    requires odd < 2 && index < 512
    ensures index == 2 * b + odd <==> ByteOf(index) == b && index % 2 == odd
  {
  }

  /** Words decode to bytes exactly if, blanks and case aside, they are the words
      of those bytes. */
  lemma {:induction false} DecodesExactly(list: seq<string>, indexes: map<string, nat>, words: seq<string>, bytes: seq<Byte>,
                                          idx: nat)
    requires ListOk(list) && IndexesOf(list, indexes)
    ensures DecodeFrom(indexes, words, idx) == Ok(bytes) <==> Cleaned(words) == LoweredFrom(list, bytes, idx)
    decreases |words|
  {
    if words == [] {
    } else if TrimSpace(words[0]) == "" {
      DecodesExactly(list, indexes, words[1..], bytes, idx);
    } else if bytes != [] {
      var lower := ToLower(TrimSpace(words[0]));
      DecodesExactly(list, indexes, words[1..], bytes[1..], idx + 1);
      HeadDecodes(list, indexes, lower, bytes[0], idx);
      hide ToLower, TrimSpace, ByteOf, ByteToMnemonic, IndexesOf, ListOk;
      assert bytes == [bytes[0]] + bytes[1..];
      var cleaned, lowered := Cleaned(words[1..]), LoweredFrom(list, bytes[1..], idx + 1);
      assert Cleaned(words)[0] == lower && Cleaned(words)[1..] == cleaned;
      assert LoweredFrom(list, bytes, idx)[1..] == lowered;
    }
  }

  lemma HeadDecodes(list: seq<string>, indexes: map<string, nat>, lower: string, b: Byte, idx: nat)
    requires ListOk(list) && IndexesOf(list, indexes)
    ensures lower == ToLower(ByteToMnemonic(list, b, idx)) <==>
            lower in indexes && indexes[lower] % 2 == idx % 2 && ByteOf(indexes[lower]) == b
  {
    var i := 2 * b + idx % 2;
    WordIndex(list, indexes, i);
    if lower in indexes {
      BytePair(indexes[lower], b, idx % 2);
    }
  }

  predicate Blank(w: string) {
    TrimSpace(w) == ""
  }

  lemma {:induction false} SomeCounts(words: seq<string>, j: nat)
    requires j < |words| && !Blank(words[j])
    ensures Cleaned(words) != []
  {
    if j > 0 {
      SomeCounts(words[1..], j - 1);
    }
  }

  /** A word that is in the list and of the right parity. */
  predicate Counts(indexes: map<string, nat>, word: string, idx: nat) {
    var lower := ToLower(TrimSpace(word));
    lower in indexes && indexes[lower] % 2 == idx % 2
  }

  lemma OneWord(indexes: map<string, nat>, words: seq<string>, idx: nat)
    requires words != []
    ensures DecodeFrom(indexes, words, idx).Ok? <==>
            if Blank(words[0]) then DecodeFrom(indexes, words[1..], idx).Ok?
            else Counts(indexes, words[0], idx) && DecodeFrom(indexes, words[1..], idx + 1).Ok?
  {
  }

  /** How many words are not blank. */
  function Filled(words: seq<string>): nat {
    if words == [] then 0 else (if Blank(words[0]) then 0 else 1) + Filled(words[1..])
  }

  /** The error is that of the first word at fault: it is not in the list, or of the wrong
      parity for its place among the words that are not blank. */
  lemma {:induction false} FirstError(indexes: map<string, nat>, words: seq<string>, idx: nat, j: nat)
    requires j < |words| && !Blank(words[j]) && !Counts(indexes, words[j], idx + Filled(words[..j]))
    requires forall i :: 0 <= i < j ==> Blank(words[i]) || Counts(indexes, words[i], idx + Filled(words[..i]))
    ensures var w := TrimSpace(words[j]);
            DecodeFrom(indexes, words, idx) ==
            Err(if ToLower(w) !in indexes then NotInList(w) else Misplaced(w, idx + Filled(words[..j])))
  {
    if j > 0 {
      var next := if Blank(words[0]) then idx else idx + 1;
      forall i | 1 <= i <= j
        ensures words[..i][1..] == words[1..][..i - 1] && idx + Filled(words[..i]) == next + Filled(words[1..][..i - 1])
      {
        assert words[..i][1..] == words[1..][..i - 1];
      }
      assert words[..0] == [] && (Blank(words[0]) || Counts(indexes, words[0], idx + Filled(words[..0])));
      hide TrimSpace, ToLower, Filled;
      FirstError(indexes, words[1..], next, j - 1);
    }
  }

  /** What is trimmed away is white space, and what is left neither begins nor ends with
      it. */
  lemma TrimExactly(s: string)
    ensures exists i, j :: 0 <= i <= j <= |s| && TrimSpace(s) == s[i..j]
                           && (forall k :: 0 <= k < i ==> IsSpace(s[k])) && (forall k :: j <= k < |s| ==> IsSpace(s[k]))
                           && (i < j ==> !IsSpace(s[i]) && !IsSpace(s[j - 1]))
  {
    var i := TrimmedLeft(s);
    var j := TrimmedRight(s[i..]);
    var t := s[i..];
    assert t[..j] == s[i..i + j];
    forall k | i + j <= k < |s|
      ensures IsSpace(s[k])
    {
      assert s[k] == t[k - i];
    }
    assert j > 0 ==> t[j - 1] == s[i + j - 1] && t[0] == s[i];
  }

  lemma {:induction false} TrimmedLeft(s: string) returns (i: nat)
    ensures i <= |s| && TrimLeft(s) == s[i..] && forall k :: 0 <= k < i ==> IsSpace(s[k])
    ensures i < |s| ==> !IsSpace(s[i])
  {
    if s == [] || !IsSpace(s[0]) {
      i := 0;
    } else {
      i := TrimmedLeft(s[1..]);
      i := i + 1;
    }
  }

  lemma {:induction false} TrimmedRight(s: string) returns (j: nat)
    ensures j <= |s| && TrimRight(s) == s[..j] && forall k :: j <= k < |s| ==> IsSpace(s[k])
    ensures j > 0 ==> !IsSpace(s[j - 1])
  {
    if s == [] || !IsSpace(s[|s| - 1]) {
      j := |s|;
    } else {
      j := TrimmedRight(s[..|s| - 1]);
    }
  }

  lemma WithoutStep(words: seq<string>, i: nat)
    requires i < |words|
    ensures var without := words[..i] + words[i + 1..];
            if i == 0 then without == words[1..]
            else without != [] && without[0] == words[0] && without[1..] == words[1..][..i - 1] + words[1..][i..]
  {
  }

  /** Leaving out a word is noticed, unless no word follows it. */
  lemma {:induction false} DeletionRejected(indexes: map<string, nat>, words: seq<string>, idx: nat, i: nat, j: nat)
    requires DecodeFrom(indexes, words, idx).Ok?
    requires i < j < |words| && !Blank(words[i]) && !Blank(words[j])
    ensures DecodeFrom(indexes, words[..i] + words[i + 1..], idx).Err?
  {
    hide DecodeFrom, Blank, Counts, Cleaned;
    OneWord(indexes, words, idx);
    WithoutStep(words, i);
    if i == 0 {
      SomeCounts(words[1..], j - 1);
      Parity(indexes, words[1..], idx);
    } else {
      OneWord(indexes, words[..i] + words[i + 1..], idx);
      DeletionRejected(indexes, words[1..], if Blank(words[0]) then idx else idx + 1, i - 1, j - 1);
    }
  }

  function Swapped(words: seq<string>, i: nat): (r: seq<string>)
    requires i + 1 < |words|
    ensures |r| == |words|
  {
    words[i := words[i + 1]][i + 1 := words[i]]
  }

  lemma SwappedStep(words: seq<string>, i: nat)
    requires i + 1 < |words|
    ensures if i == 0 then Swapped(words, i)[0] == words[1] && words[1..][0] == words[1]
            else Swapped(words, i)[0] == words[0] && Swapped(words, i)[1..] == Swapped(words[1..], i - 1)
  {
  }

  /** Swapping two neighbouring words is noticed. */
  lemma {:induction false} SwapRejected(indexes: map<string, nat>, words: seq<string>, idx: nat, i: nat)
    requires DecodeFrom(indexes, words, idx).Ok?
    requires i + 1 < |words| && !Blank(words[i]) && !Blank(words[i + 1])
    ensures DecodeFrom(indexes, Swapped(words, i), idx).Err?
  {
    hide DecodeFrom, Blank, Swapped;
    OneWord(indexes, words, idx);
    OneWord(indexes, Swapped(words, i), idx);
    SwappedStep(words, i);
    if i == 0 {
      OneWord(indexes, words[1..], idx + 1);
    } else {
      SwapRejected(indexes, words[1..], if Blank(words[0]) then idx else idx + 1, i - 1);
    }
  }

  /** Words decode at positions of one parity only. */
  lemma {:induction false} Parity(indexes: map<string, nat>, words: seq<string>, idx: nat)
    requires Cleaned(words) != [] && DecodeFrom(indexes, words, idx + 1).Ok?
    ensures DecodeFrom(indexes, words, idx).Err?
  {
    if words != [] && Blank(words[0]) {
      Parity(indexes, words[1..], idx);
    }
  }
}
