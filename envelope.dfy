/** The stored blob format both repositories share: the serialized value, the
    graceful prefix, and the absolute expiry time in decimal. */
module Envelope {
  import opened PhpValue
  import opened PhpString
  import opened PhpInt

  /** The separator written between the serialized value and the expiry time. */
  const GracefulPrefix: string := "?GracefulCacheExpiration="

  /** The class statics of a repository: the separator, the minutes an expiring
      entry is extended by, and how many seconds before its expiry an entry
      counts as expiring soon. */
  datatype Config = Config(gracefulPrefix: string, extendMinutes: nat, expireThreshold: int)

  /** The absolute expiry, in Unix seconds, of an entry cached for `minutes` at `now`. */
  function ExpiresAt(minutes: nat, now: int): (t: int)
    ensures t >= now
  {
    now + minutes * 60
  }

  /** `getModifiedValue($value, $minutes)`, with `now` standing for `time()`. */
  function GetModifiedValue(cfg: Config, codec: Codec, value: Value, minutes: nat, now: int): (blob: string)
    ensures |blob| > |codec.serialize(value)| + |cfg.gracefulPrefix|
  {
    codec.serialize(value) + cfg.gracefulPrefix + IntToDecimal(ExpiresAt(minutes, now))
  }

  /** The test both `get` methods make: the clock is past the expiry minus the threshold. */
  predicate ExpiringSoon(cfg: Config, expiresAt: int, now: int) {
    now > expiresAt - cfg.expireThreshold
  }

  /** No proper prefix of `m` is also a suffix of `m`, so two occurrences of `m` never overlap. */
  ghost predicate Unbordered(m: string) {
    forall p :: 0 < p < |m| ==> m[p..] != m[..|m| - p]
  }

  /** A string whose first character appears nowhere else in it does not overlap itself. */
  lemma UnborderedByFirstChar(m: string, first: char, rest: string)
    requires m == [first] + rest && first !in rest
    ensures Unbordered(m)
  {
    forall p | 0 < p < |m|
      ensures m[p..] != m[..|m| - p]
    {
      assert m[p] == rest[p - 1];
      assert m[p..][0] == m[p];
      assert m[..|m| - p][0] == first;
    }
  }

  /** The real separator does not overlap itself: its first character `?` appears nowhere else. */
  lemma GracefulPrefixUnbordered()
    ensures Unbordered(GracefulPrefix)
  {
    var rest := "GracefulCacheExpiration=";
    assert '?' !in rest;
    assert GracefulPrefix == "?" + rest;
    UnborderedByFirstChar(GracefulPrefix, '?', rest);
  }

  /** Before the serialized value ends, the separator cannot start: it would lie
      inside the serialized value, or overlap the separator that follows it. */
  lemma NoEarlySeparator(s: string, m: string, d: string, j: nat)
    requires Absent(s, m) && Unbordered(m) && j < |s|
    ensures !OccursAt(s + m + d, m, j)
  {
    var blob := s + m + d;
    if j + |m| <= |s| {
      assert blob[j..j + |m|] == s[j..j + |m|];
      assert !OccursAt(s, m, j);
    } else if j + |m| <= |blob| {
      var p := |s| - j;
      var window := blob[j..j + |m|];
      assert window[p..] == m[..|m| - p];
      assert m[p..] != m[..|m| - p];
    }
  }

  /** An encoded blob splits at its first separator into exactly the serialized
      value and the decimal expiry, when the serialized value holds no separator. */
  lemma ModifiedValueSplits(cfg: Config, codec: Codec, value: Value, minutes: nat, now: int)
    requires Absent(codec.serialize(value), cfg.gracefulPrefix)
    requires Unbordered(cfg.gracefulPrefix)
    ensures var blob := GetModifiedValue(cfg, codec, value, minutes, now);
            var i := |codec.serialize(value)|;
            && StrPos(blob, cfg.gracefulPrefix) == Some(i)
            && blob[..i] == codec.serialize(value)
            && IntCast(blob[i + |cfg.gracefulPrefix|..]) == ExpiresAt(minutes, now)
  {
    var s, m := codec.serialize(value), cfg.gracefulPrefix;
    var d := IntToDecimal(ExpiresAt(minutes, now));
    var blob := GetModifiedValue(cfg, codec, value, minutes, now);
    assert blob == s + m + d;
    assert blob[|s|..|s| + |m|] == m;
    assert OccursAt(blob, m, |s|);
    forall j: nat | j < |s|
      ensures !OccursAt(blob, m, j)
    {
      NoEarlySeparator(s, m, d, j);
    }
    assert blob[|s| + |m|..] == d;
    IntCastOfDecimal(ExpiresAt(minutes, now));
  }
}
