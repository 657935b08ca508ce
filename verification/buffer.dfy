/**
 * The toolkit text buffer's literal search, as the editor relies on it.
 *
 * The editor calls `search_forward` and `search_backward` of its text buffer
 * and never sees their code. The two functions below are reference scans
 * whose CONTRACTS are what the rest of the model assumes of the toolkit:
 * a forward search yields the leftmost match at or after its start, a
 * backward search yields the rightmost match at or before its start (and
 * nothing when the start is negative). A match only starts at an offset
 * inside the text, because the toolkit tries start offsets only while they
 * are below the buffer length; this matters for the empty pattern alone,
 * which therefore occurs at every offset of a non-empty text and nowhere in
 * the empty text. Characters are compared with `eq`,
 * because no call site passes a case flag and the toolkit's default decides
 * whether case is folded; `eq` relates single bytes, so it captures
 * byte-wise rules such as ASCII folding but not folding of multi-byte letters.
 */
module TextBuffer {

  datatype Option<+T> = None | Some(value: T)

  /** The toolkit's character comparison. */
  type CharEq = (char, char) -> bool

  /** `needle` occurs in `text` at offset `p`, an offset inside the text. */
  predicate MatchAt(eq: CharEq, text: seq<char>, needle: seq<char>, p: int)
  {
    && 0 <= p < |text|
    && p + |needle| <= |text|
    && forall k :: 0 <= k < |needle| ==> eq(text[p + k], needle[k])
  }

  /** No match starts at any offset in `[lo, hi]`. */
  predicate NoMatchIn(eq: CharEq, text: seq<char>, needle: seq<char>, lo: int, hi: int)
  {
    forall p :: lo <= p <= hi ==> !MatchAt(eq, text, needle, p)
  }

  /** Matches never start past `|text| - |needle|`, so "none up to |text|" means none at all. */
  predicate NoMatch(eq: CharEq, text: seq<char>, needle: seq<char>)
  {
    NoMatchIn(eq, text, needle, 0, |text|)
  }

  /** `p` is the leftmost match at or after `lo`. */
  predicate FirstMatchFrom(eq: CharEq, text: seq<char>, needle: seq<char>, lo: int, p: int)
  {
    lo <= p && MatchAt(eq, text, needle, p) && NoMatchIn(eq, text, needle, lo, p - 1)
  }

  /** `p` is the rightmost match at or before `hi`. */
  predicate LastMatchUpTo(eq: CharEq, text: seq<char>, needle: seq<char>, hi: int, p: int)
  {
    p <= hi && MatchAt(eq, text, needle, p) && NoMatchIn(eq, text, needle, p + 1, hi)
  }

  /** Fl_Text_Buffer::search_forward: the leftmost match at or after `start`, if any. */
  function SearchForward(eq: CharEq, text: seq<char>, needle: seq<char>, start: int): (r: Option<int>)
    ensures r.Some? ==> FirstMatchFrom(eq, text, needle, start, r.value)
    ensures r.None? ==> NoMatchIn(eq, text, needle, start, |text|)
    decreases |text| + 1 - start
  {
    if start + |needle| > |text| then None
    else if MatchAt(eq, text, needle, start) then Some(start)
    else SearchForward(eq, text, needle, start + 1)
  }

  /** Fl_Text_Buffer::search_backward: the rightmost match at or before `start`, if any. */
  function SearchBackward(eq: CharEq, text: seq<char>, needle: seq<char>, start: int): (r: Option<int>)
    ensures r.Some? ==> LastMatchUpTo(eq, text, needle, start, r.value)
    ensures r.None? ==> NoMatchIn(eq, text, needle, 0, start)
    ensures start < 0 ==> r.None?
    decreases start + 1
  {
    if start < 0 then None
    else if MatchAt(eq, text, needle, start) then Some(start)
    else SearchBackward(eq, text, needle, start - 1)
  }

  /** At most one offset is the leftmost match from a given start. */
  lemma FirstMatchUnique(eq: CharEq, text: seq<char>, needle: seq<char>, lo: int, p: int, q: int)
    requires FirstMatchFrom(eq, text, needle, lo, p)
    requires FirstMatchFrom(eq, text, needle, lo, q)
    ensures p == q
  {
  }

  /** At most one offset is the rightmost match up to a given bound. */
  lemma LastMatchUnique(eq: CharEq, text: seq<char>, needle: seq<char>, hi: int, p: int, q: int)
    requires LastMatchUpTo(eq, text, needle, hi, p)
    requires LastMatchUpTo(eq, text, needle, hi, q)
    ensures p == q
  {
  }
}
