/**
 The packed 16-bit filter word that every trie node carries: one 16-bit group per
 inline slot, holding the upper 16 bits of the slot's tag (never 0) when the slot is
 live and 0 otherwise.
 */
module H2Filter {
  import opened Machine

  const GROUPS := 4

  /** The filter value of a tag: its bits 48..63, forced to be non-zero. */
  function ForTag(tag: Word): (h: bv64)
    ensures 0 < h <= 0xFFFF
  {
    var h := (tag / 0x1_0000_0000_0000) as bv64;
    if h == 0 then 1 else h
  }

  /** The four 16-bit groups of a filter word, lowest first. */
  function Groups(word: bv64): (g: seq<bv64>)
    ensures |g| == GROUPS
  {
    [word & 0xFFFF, (word >> 16) & 0xFFFF, (word >> 32) & 0xFFFF, word >> 48]
  }

  /** Replaces group i by v: clear the 16 bits, then or in the shifted value. */
  function Put(word: bv64, i: nat, v: bv64): bv64
    requires i < GROUPS && v <= 0xFFFF
  {
    if i == 0 then (word & 0xFFFF_FFFF_FFFF_0000) | v
    else if i == 1 then (word & 0xFFFF_FFFF_0000_FFFF) | (v << 16)
    else if i == 2 then (word & 0xFFFF_0000_FFFF_FFFF) | (v << 32)
    else (word & 0x0000_FFFF_FFFF_FFFF) | (v << 48)
  }

  /** The has-zero-group bit trick, on the word xored with the broadcast query. */
  predicate AnyMatch(word: bv64, query: bv64)
    requires query <= 0xFFFF
  {
    var x := word ^ (query * 0x0001_0001_0001_0001);
    (x - 0x0001_0001_0001_0001) & !x & 0x8000_8000_8000_8000 != 0
  }

  // The bit-level facts below mention no other function, so that each is one small
  // bit-vector problem; the lemmas after them never look inside a word again.

  lemma PutGroups0(w: bv64, v: bv64)
    requires v <= 0xFFFF
    ensures Groups((w & 0xFFFF_FFFF_FFFF_0000) | v) == Groups(w)[0 := v]
  {}

  lemma PutGroups1(w: bv64, v: bv64)
    requires v <= 0xFFFF
    ensures Groups((w & 0xFFFF_FFFF_0000_FFFF) | (v << 16)) == Groups(w)[1 := v]
  {}

  lemma PutGroups2(w: bv64, v: bv64)
    requires v <= 0xFFFF
    ensures Groups((w & 0xFFFF_0000_FFFF_FFFF) | (v << 32)) == Groups(w)[2 := v]
  {}

  lemma PutGroups3(w: bv64, v: bv64)
    requires v <= 0xFFFF
    ensures Groups((w & 0x0000_FFFF_FFFF_FFFF) | (v << 48)) == Groups(w)[3 := v]
  {}

  /** Put writes exactly one group. */
  lemma PutGroups(word: bv64, i: nat, v: bv64)
    requires i < GROUPS && v <= 0xFFFF
    ensures Groups(Put(word, i, v)) == Groups(word)[i := v]
  {
    hide Groups;
    if i == 0 {
      PutGroups0(word, v);
    } else if i == 1 {
      PutGroups1(word, v);
    } else if i == 2 {
      PutGroups2(word, v);
    } else {
      PutGroups3(word, v);
    }
  }

  lemma MatchBits0(w: bv64, q: bv64)
    requires q <= 0xFFFF && w & 0xFFFF == q
    ensures AnyMatch(w, q)
  {}

  lemma MatchBits1(w: bv64, q: bv64)
    requires q <= 0xFFFF && (w >> 16) & 0xFFFF == q
    ensures AnyMatch(w, q)
  {}

  lemma MatchBits2(w: bv64, q: bv64)
    requires q <= 0xFFFF && (w >> 32) & 0xFFFF == q
    ensures AnyMatch(w, q)
  {}

  lemma MatchBits3(w: bv64, q: bv64)
    requires q <= 0xFFFF && w >> 48 == q
    ensures AnyMatch(w, q)
  {}

  lemma NoMatchBits(w: bv64, q: bv64)
    requires q <= 0xFFFF
    requires w & 0xFFFF != q && (w >> 16) & 0xFFFF != q && (w >> 32) & 0xFFFF != q && w >> 48 != q
    ensures ((w ^ (q * 0x0001_0001_0001_0001)) - 0x0001_0001_0001_0001)
            & !(w ^ (q * 0x0001_0001_0001_0001)) & 0x8000_8000_8000_8000 == 0
  {}

  lemma NoMatch(w: bv64, q: bv64)
    requires q <= 0xFFFF
    requires w & 0xFFFF != q && (w >> 16) & 0xFFFF != q && (w >> 32) & 0xFFFF != q && w >> 48 != q
    ensures !AnyMatch(w, q)
  {
    NoMatchBits(w, q);
  }

  lemma MatchComplete(word: bv64, query: bv64)
    requires query <= 0xFFFF && query in Groups(word)
    ensures AnyMatch(word, query)
  {
    hide AnyMatch;
    if word & 0xFFFF == query {
      MatchBits0(word, query);
    } else if (word >> 16) & 0xFFFF == query {
      MatchBits1(word, query);
    } else if (word >> 32) & 0xFFFF == query {
      MatchBits2(word, query);
    } else {
      MatchBits3(word, query);
    }
  }

  lemma MatchSound(word: bv64, query: bv64)
    requires query <= 0xFFFF && query !in Groups(word)
    ensures !AnyMatch(word, query)
  {
    hide AnyMatch;
    var g := Groups(word);
    assert g[0] != query && g[1] != query && g[2] != query && g[3] != query;
    NoMatch(word, query);
  }

  /** The bit trick is exact: it answers true if and only if some group equals the query. */
  lemma AnyMatchExact(word: bv64, query: bv64)
    requires query <= 0xFFFF
    ensures AnyMatch(word, query) <==> query in Groups(word)
  {
    hide AnyMatch, Groups;
    if query in Groups(word) {
      MatchComplete(word, query);
    } else {
      MatchSound(word, query);
    }
  }
}
