/**
 Path segments that look like identifiers, and the filter that drops them.
 The client matches each segment against the regular expression `^[\d,]+$`;
 Go's RE2 reads `\d` as the ASCII digits only, so a segment matches exactly
 when it is non-empty and every character is a digit or a comma.
 */
module Segments {

  predicate IsIdChar(c: char)
  {
    '0' <= c <= '9' || c == ','
  }

  /** The segment matches `^[\d,]+$`. Such a segment holds neither a `/`
      nor a `?`. */
  predicate IsId(segment: string)
    ensures IsId(segment) ==> '/' !in segment && '?' !in segment
  {
    |segment| > 0 && forall i :: 0 <= i < |segment| ==> IsIdChar(segment[i])
  }

  /** No element of `parts` is an identifier segment. */
  predicate NoIds(parts: seq<string>)
  {
    forall i :: 0 <= i < |parts| ==> !IsId(parts[i])
  }

  /** The segments of `parts` that are not identifiers, in their original order
      (empty segments are not identifiers and are kept). */
  function KeepNonIds(parts: seq<string>): (kept: seq<string>)
    ensures |kept| <= |parts|
    ensures NoIds(kept)
    ensures forall i :: 0 <= i < |kept| ==> kept[i] in parts
    ensures forall i :: 0 <= i < |parts| && !IsId(parts[i]) ==> parts[i] in kept
    ensures |parts| == 1 ==> (|kept| == 0 <==> IsId(parts[0]))
  {
    if |parts| == 0 then []
    else
      var rest := KeepNonIds(parts[1..]);
      assert forall i :: 1 <= i < |parts| ==> parts[i] == parts[1..][i - 1];
      (if IsId(parts[0]) then [] else [parts[0]]) + rest
  }

  /** The filter works element by element: filtering a concatenation is the
      concatenation of the filtered halves. Together with the one-element case
      of `KeepNonIds`'s contract this pins the filter down as "keep the
      non-identifiers, in order". */
  lemma {:induction false} KeepNonIdsAppend(a: seq<string>, b: seq<string>)
    ensures KeepNonIds(a + b) == KeepNonIds(a) + KeepNonIds(b)
  {
    if |a| == 0 {
      assert a + b == b;
    } else {
      assert (a + b)[1..] == a[1..] + b;
      KeepNonIdsAppend(a[1..], b);
    }
  }

  /** The filter changes nothing exactly when there is nothing to drop. */
  lemma {:induction false} KeepNonIdsFixed(parts: seq<string>)
    ensures KeepNonIds(parts) == parts <==> NoIds(parts)
  {
    if |parts| > 0 && NoIds(parts) {
      assert NoIds(parts[1..]) by {
        assert forall i :: 0 <= i < |parts[1..]| ==> parts[1..][i] == parts[i + 1];
      }
      KeepNonIdsFixed(parts[1..]);
    }
  }

  /** Filtering twice is filtering once. */
  lemma KeepNonIdsIdempotent(parts: seq<string>)
    ensures KeepNonIds(KeepNonIds(parts)) == KeepNonIds(parts)
  {
    KeepNonIdsFixed(KeepNonIds(parts));
  }

  /** In "/users/123/orders/45,6" the segments "123" and "45,6" are
      identifiers; the empty leading segment and the words are kept. */
  lemma KeepNonIdsExample()
    ensures KeepNonIds(["", "users", "123", "orders", "45,6"]) == ["", "users", "orders"]
  {
    assert IsId("123") && IsId("45,6");
    assert !IsIdChar("users"[0]) && !IsIdChar("orders"[0]);
    KeepNonIdsAppend(["orders"], ["45,6"]);
    KeepNonIdsAppend(["123"], ["orders"] + ["45,6"]);
    KeepNonIdsAppend(["users"], ["123"] + (["orders"] + ["45,6"]));
    KeepNonIdsAppend([""], ["users"] + (["123"] + (["orders"] + ["45,6"])));
  }

  /** An identifier between two non-identifiers is the only segment dropped. */
  lemma KeepNonIdsMiddle(x: string, d: string, y: string)
    requires !IsId(x) && IsId(d) && !IsId(y)
    ensures KeepNonIds([x, d, y]) == [x, y]
  {
    KeepNonIdsAppend([x, d], [y]);
    KeepNonIdsAppend([x], [d]);
    assert [x, d] + [y] == [x, d, y];
    assert [x] + [d] == [x, d];
  }
}
