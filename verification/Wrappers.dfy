module Wrappers {
  datatype Option<+T> = None | Some(value: T)
}

/** The characters that `str.strip` removes. */
module Spaces {
  predicate IsSpace(c: char) {
    || c == ' ' || '\U{0009}' <= c <= '\U{000D}' || '\U{001C}' <= c <= '\U{001F}' || c == '\U{0085}'
    || c == '\U{00A0}' || c == '\U{1680}' || '\U{2000}' <= c <= '\U{200A}' || c == '\U{2028}'
    || c == '\U{2029}' || c == '\U{202F}' || c == '\U{205F}' || c == '\U{3000}'
  }

  /** By code point. */
  lemma SpacesAre(c: char)
    ensures IsSpace(c) <==>
            || 9 <= c as int <= 13 || 28 <= c as int <= 32 || 8192 <= c as int <= 8202
            || c as int in {133, 160, 5760, 8232, 8233, 8239, 8287, 12288}
  {
  }

  /** Takes unwanted characters off both ends. */
  function StripWith(text: string, gone: char -> bool): string
    decreases |text|
  {
    if text == "" then ""
    else if gone(text[0]) then StripWith(text[1..], gone)
    else if gone(text[|text| - 1]) then StripWith(text[..|text| - 1], gone)
    else text
  }

  function StripSpace(text: string): string {
    StripWith(text, IsSpace)
  }

  lemma {:induction false} StripOne(text: string, gone: char -> bool, i: nat, j: nat)
    requires i < j <= |text|
    ensures StripWith(text[i..j], gone) ==
            if gone(text[i]) then StripWith(text[i + 1..j], gone)
            else if gone(text[j - 1]) then StripWith(text[i..j - 1], gone) else text[i..j]
  {
    var s := text[i..j];
    assert s[1..] == text[i + 1..j] && s[..|s| - 1] == text[i..j - 1];
  }

  lemma {:induction false} StripBetween(text: string, gone: char -> bool, i: nat, j: nat) returns (a: nat, b: nat)
    requires i <= j <= |text|
    ensures i <= a <= b <= j && StripWith(text[i..j], gone) == text[a..b]
    ensures forall k :: i <= k < a || b <= k < j ==> gone(text[k])
    ensures a < b ==> !gone(text[a]) && !gone(text[b - 1])
    decreases j - i
  {
    a, b := i, j;
    if i < j {
      StripOne(text, gone, i, j);
      if gone(text[i]) {
        a, b := StripBetween(text, gone, i + 1, j);
      } else if gone(text[j - 1]) {
        a, b := StripBetween(text, gone, i, j - 1);
      }
    }
  }

  /** Stripping takes spaces off both ends, all of them, and nothing else. */
  lemma StripSpaceIs(text: string) returns (a: nat, b: nat)
    ensures a <= b <= |text| && StripSpace(text) == text[a..b]
    ensures forall k :: 0 <= k < a || b <= k < |text| ==> IsSpace(text[k])
    ensures a < b ==> !IsSpace(text[a]) && !IsSpace(text[b - 1])
  {
    a, b := StripBetween(text, IsSpace, 0, |text|);
    assert text[0..|text|] == text;
  }
}

/** Text that arrives in pieces. */
module Chunks {
  function Concat(chunks: seq<string>): string {
    if chunks == [] then "" else Concat(chunks[..|chunks| - 1]) + chunks[|chunks| - 1]
  }

  /** Each piece stands where the pieces before it end. */
  lemma {:induction false} ConcatHolds(chunks: seq<string>, n: nat)
    requires n < |chunks|
    ensures Concat(chunks[..n]) + chunks[n] <= Concat(chunks)
    ensures |chunks| == 1 ==> Concat(chunks) == chunks[0]
  {
    assert chunks[..|chunks| - 1] + [chunks[|chunks| - 1]] == chunks;
    if n < |chunks| - 1 {
      ConcatHolds(chunks[..|chunks| - 1], n);
      assert chunks[..|chunks| - 1][..n] == chunks[..n];
    }
  }
}

/** Decoded JSON, as far as plan validation looks at it. */
module Json {
  datatype Value =
    | Missing
    | Null
    | Bool(flag: bool)
    | Int(number: int)
    | Text(text: string)
    | List(items: seq<Value>)
    | Other
}
