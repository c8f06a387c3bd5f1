/**
 * The address-shortening helper of the wallet-connection widget: the first
 * six characters, an ellipsis and the last four.
 */
module Wallet {
  import opened Wrappers

  function Min(a: int, b: int): int { if a <= b then a else b }

  function Max(a: int, b: int): int { if a <= b then b else a }

  /** Resolves one JavaScript slice argument: a negative index counts from the end; the result is clamped to the string. */
  function SliceIndex(n: nat, k: int): (r: nat)
    ensures r <= n
    ensures 0 <= k ==> r == Min(k, n)
    ensures k < 0 ==> r == Max(n + k, 0)
  {
    if k < 0 then (if n + k < 0 then 0 else n + k) else if k <= n then k else n
  }

  /** String.prototype.slice(begin, end). */
  function JsSlice(s: string, begin: int, end: int): string
  {
    var from, to := SliceIndex(|s|, begin), SliceIndex(|s|, end);
    if from < to then s[from..to] else ""
  }

  /**
   * With a count k, slice(0, k) keeps a prefix and slice(-k) a suffix, each
   * at most k long; slice(-0) is slice(0), the whole string.
   */
  lemma {:induction false} JsSliceEnds(s: string, k: nat)
    ensures JsSlice(s, 0, k) == s[..Min(k, |s|)]
    ensures 0 < k ==> JsSlice(s, -(k as int), |s|) == s[|s| - Min(k, |s|)..]
    ensures k == 0 ==> JsSlice(s, -(k as int), |s|) == s
  {
    if s == [] {
      assert s[|s|..] == "";
    }
    if k == 0 {
      assert s[..0] == "";
      assert s[0..|s|] == s;
    }
  }

  const Ellipsis: string := "..."

  /** `formatAddress`: a null or empty address shows as the empty string. */
  function FormatAddress(address: Option<string>): (r: string)
    ensures address.None? || address.value == "" ==> r == ""
    ensures address.Some? && address.value != "" ==>
      var a, p, q := address.value, Min(6, |address.value|), Min(4, |address.value|);
      && |r| == p + 3 + q
      && r[..p] == a[..p]
      && r[p..p + 3] == Ellipsis
      && r[|r| - q..] == a[|a| - q..]
  {
    match address
    case None => ""
    case Some(a) => if a == "" then "" else JsSlice(a, 0, 6) + Ellipsis + JsSlice(a, -4, |a|)
  }

  /** An address of at least six characters always shows as thirteen characters. */
  lemma FormatAddressLength(a: string)
    requires |a| >= 6
    ensures |FormatAddress(Some(a))| == 13
  {
  }

  /**
   * Two addresses of at least six characters show the same exactly when
   * they agree on their first six and their last four characters: the
   * display tells addresses apart only by those ten characters.
   */
  lemma SameDisplayIffSameEnds(a: string, b: string)
    requires |a| >= 6 && |b| >= 6
    ensures FormatAddress(Some(a)) == FormatAddress(Some(b))
            <==> a[..6] == b[..6] && a[|a| - 4..] == b[|b| - 4..]
  {
    var ra, rb := FormatAddress(Some(a)), FormatAddress(Some(b));
    assert ra == a[..6] + Ellipsis + a[|a| - 4..];
    assert rb == b[..6] + Ellipsis + b[|b| - 4..];
    if ra == rb {
      assert ra[..6] == a[..6] && rb[..6] == b[..6];
      assert ra[9..] == a[|a| - 4..] && rb[9..] == b[|b| - 4..];
    }
  }
}
