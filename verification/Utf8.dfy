/** Strings are well-formed UTF-8 byte sequences (table 3-7 of the Unicode standard). */
module Utf8 {
  import opened Bytes

  predicate Cont(s: seq<byte>, k: nat) {
    k < |s| && 0x80 <= s[k] <= 0xBF
  }

  /** The length of the first character, 0 when there is none. */
  function FirstLen(s: seq<byte>): (n: nat)
    ensures n <= |s|
  {
    if s == [] then 0
    else if s[0] <= 0x7F then 1
    else if !Cont(s, 1) then 0
    else if 0xC2 <= s[0] <= 0xDF then 2
    else if !Cont(s, 2) then 0
    else if s[0] == 0xE0 && s[1] >= 0xA0 then 3
    else if s[0] == 0xED && s[1] <= 0x9F then 3
    else if 0xE1 <= s[0] <= 0xEF && s[0] != 0xED then 3
    else if !Cont(s, 3) then 0
    else if s[0] == 0xF0 && s[1] >= 0x90 then 4
    else if 0xF1 <= s[0] <= 0xF3 then 4
    else if s[0] == 0xF4 && s[1] <= 0x8F then 4
    else 0
  }

  predicate Valid(s: seq<byte>) {
    s == [] || (FirstLen(s) > 0 && Valid(s[FirstLen(s)..]))
  }

  ghost predicate AllValid(texts: seq<seq<byte>>) {
    forall k :: 0 <= k < |texts| ==> Valid(texts[k])
  }

  lemma {:induction false} AllValidCons(texts: seq<seq<byte>>)
    requires texts != []
    ensures AllValid(texts) <==> Valid(texts[0]) && AllValid(texts[1..])
  {
    hide Valid;
    if Valid(texts[0]) && AllValid(texts[1..]) {
      forall k | 0 <= k < |texts| ensures Valid(texts[k]) {
        assert k > 0 ==> texts[k] == texts[1..][k - 1];
      }
    }
  }
}
