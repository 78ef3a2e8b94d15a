/** `GracefulCache\Repository\GracefulCacheRepository`: on an expiring entry it
    extends the stored entry and still returns the value it read. Its decoders
    have no string check and no guard for a missing separator. */
module ServeStale {
  import opened PhpValue
  import opened PhpString
  import opened PhpInt
  import opened Envelope
  import opened BackingStore

  /** The class statics: separator, 1 extension minute, a 60-second threshold. */
  const Defaults: Config := Config(GracefulPrefix, 1, 60)

  /** What `get` actually reads for threshold and extension: `$this->expireThreshold`
      and `$this->extendMinutes` name instance properties, which the class does
      not declare (its properties are static), so both read as null. Null acts
      as 0 in the threshold and expiry arithmetic; the TTL handed to the store
      is `getMinutes(null)`, which this model records as 0. */
  const AsWrittenDefaults: Config := Config(GracefulPrefix, 0, 0)

  /** The outcome of `get`: a value, or the type error `strpos` raises on an array. */
  datatype Reply = Returns(value: Value) | RaisesTypeError

  /** The string PHP makes of a stored value passed to `strpos` and `substr`
      without strict types: an integer becomes its decimal form, `true` becomes
      "1", `false` and null become "", and an array cannot be one. */
  function StringArgument(raw: Value): (r: Option<string>)
    ensures r.None? <==> raw.Arr?
    ensures raw.Str? ==> r == Some(raw.s)
    ensures raw.Int? ==> r.Some? && IntCast(r.value) == raw.i
  {
    match raw
    case Str(s) => Some(s)
    case Int(i) => IntCastOfDecimal(i); Some(IntToDecimal(i))
    case Bool(b) => Some(if b then "1" else "")
    case Null => Some("")
    case Arr(_) => None
  }

  /** `strpos` as the decoders use it, in arithmetic: PHP's `false` counts as 0. */
  function SuffixIndex(cfg: Config, s: string): (i: nat)
    ensures i <= |s|
    ensures Absent(s, cfg.gracefulPrefix) ==> i == 0
    ensures !Absent(s, cfg.gracefulPrefix) ==>
              OccursAt(s, cfg.gracefulPrefix, i) && forall j: nat :: j < i ==> !OccursAt(s, cfg.gracefulPrefix, j)
  {
    match StrPos(s, cfg.gracefulPrefix)
    case Some(i) => i
    case None => 0
  }

  /** `getOriginalValue($value)` on a string. */
  function GetOriginalValue(cfg: Config, codec: Codec, s: string): Value {
    var suffixIndex := SuffixIndex(cfg, s);
    var suffixLength := |SubstrFrom(s, suffixIndex)|;
    codec.unserialize(SubstrDropTail(s, suffixLength))
  }

  /** `getExpirationTime($value)` on a string. */
  function GetExpirationTime(cfg: Config, s: string): int {
    IntCast(SubstrFrom(s, SuffixIndex(cfg, s) + |cfg.gracefulPrefix|))
  }

  lemma SuffixIndexAtFirstSeparator(cfg: Config, s: string, i: nat)
    requires OccursAt(s, cfg.gracefulPrefix, i)
    requires forall j: nat :: j < i ==> !OccursAt(s, cfg.gracefulPrefix, j)
    ensures SuffixIndex(cfg, s) == i
  {
    assert !Absent(s, cfg.gracefulPrefix);
  }

  /** `getOriginalValue` unserializes what precedes the index `SuffixIndex` names. */
  lemma OriginalAtSuffixIndex(cfg: Config, codec: Codec, s: string, i: nat)
    requires SuffixIndex(cfg, s) == i
    ensures GetOriginalValue(cfg, codec, s) == codec.unserialize(s[..i])
  {
    var tail := SubstrFrom(s, i);
    assert tail == s[i..];
    assert SubstrDropTail(s, |tail|) == s[..i];
  }

  /** `getExpirationTime` casts what follows the separator at the index `SuffixIndex` names. */
  lemma ExpirationAtSuffixIndex(cfg: Config, s: string, i: nat)
    requires SuffixIndex(cfg, s) == i && i + |cfg.gracefulPrefix| <= |s|
    ensures GetExpirationTime(cfg, s) == IntCast(s[i + |cfg.gracefulPrefix|..])
  {
    var digits := SubstrFrom(s, SuffixIndex(cfg, s) + |cfg.gracefulPrefix|);
    assert digits == s[i + |cfg.gracefulPrefix|..];
  }

  /** When the separator is present, the decoders split at its first occurrence,
      wherever it is, index 0 included. */
  lemma DecodeAtFirstSeparator(cfg: Config, codec: Codec, s: string, i: nat)
    requires OccursAt(s, cfg.gracefulPrefix, i)
    requires forall j: nat :: j < i ==> !OccursAt(s, cfg.gracefulPrefix, j)
    ensures GetOriginalValue(cfg, codec, s) == codec.unserialize(s[..i])
    ensures GetExpirationTime(cfg, s) == IntCast(s[i + |cfg.gracefulPrefix|..])
  {
    SuffixIndexAtFirstSeparator(cfg, s, i);
    OriginalAtSuffixIndex(cfg, codec, s, i);
    ExpirationAtSuffixIndex(cfg, s, i);
  }

  /** Without the separator there is no legacy pass-through: the value decodes
      as the unserialization of the empty string, and the expiry is read from
      whatever follows the first `|gracefulPrefix|` characters. */
  lemma MissingSeparator(cfg: Config, codec: Codec, s: string)
    requires Absent(s, cfg.gracefulPrefix)
    ensures GetOriginalValue(cfg, codec, s) == codec.unserialize([])
    ensures GetExpirationTime(cfg, s) == IntCast(SubstrFrom(s, |cfg.gracefulPrefix|))
  {
    assert SuffixIndex(cfg, s) == 0;
  }

  /** A stored integer is read as its decimal form, and a separator that starts
      with `?` cannot occur among digits and a minus sign: the value decodes as
      the unserialization of the empty string, as any separator-free string does. */
  lemma StoredIntDecodesAsEmpty(cfg: Config, codec: Codec, n: int)
    requires |cfg.gracefulPrefix| > 0 && cfg.gracefulPrefix[0] == '?'
    ensures StringArgument(Int(n)).Some?
    ensures GetOriginalValue(cfg, codec, StringArgument(Int(n)).value) == codec.unserialize([])
  {
    var d, m := IntToDecimal(n), cfg.gracefulPrefix;
    assert StringArgument(Int(n)) == Some(d);
    assert forall k :: 0 <= k < |d| ==> d[k] != '?' by {
      if n >= 0 {
        assert AllDigits(d);
      } else {
        var digits := NatToDecimal(-n);
        assert AllDigits(digits);
        assert forall k :: 0 < k < |d| ==> d[k] == digits[k - 1];
      }
    }
    forall i: nat
      ensures !OccursAt(d, m, i)
    {
      if i + |m| <= |d| {
        assert d[i..i + |m|][0] == d[i];
      }
    }
    MissingSeparator(cfg, codec, d);
  }

  /** Decoding an encoded blob gives back the value and its expiry, when the
      serialized value holds no separator; unlike the miss-on-expiring
      decoders, an empty serialization is fine here. */
  lemma RoundTrip(cfg: Config, codec: Codec, value: Value, minutes: nat, now: int)
    requires RoundTrips(codec)
    requires Absent(codec.serialize(value), cfg.gracefulPrefix)
    requires Unbordered(cfg.gracefulPrefix)
    ensures var blob := GetModifiedValue(cfg, codec, value, minutes, now);
            && GetOriginalValue(cfg, codec, blob) == value
            && GetExpirationTime(cfg, blob) == ExpiresAt(minutes, now)
  {
    ModifiedValueSplits(cfg, codec, value, minutes, now);
    var blob := GetModifiedValue(cfg, codec, value, minutes, now);
    DecodeAtFirstSeparator(cfg, codec, blob, |codec.serialize(value)|);
  }

  /** As written, an extension at `now` puts the store TTL `getMinutes(null)`,
      which this model records as 0, and an embedded expiry of `now` itself: it extends nothing, and one second later
      the entry is expiring again. */
  lemma AsWrittenExtensionAddsNoTime(codec: Codec, value: Value, now: int)
    requires RoundTrips(codec)
    requires Absent(codec.serialize(value), GracefulPrefix)
    ensures var blob := GetModifiedValue(AsWrittenDefaults, codec, value, AsWrittenDefaults.extendMinutes, now);
            && GetExpirationTime(AsWrittenDefaults, blob) == now
            && ExpiringSoon(AsWrittenDefaults, GetExpirationTime(AsWrittenDefaults, blob), now + 1)
  {
    GracefulPrefixUnbordered();
    RoundTrip(AsWrittenDefaults, codec, value, AsWrittenDefaults.extendMinutes, now);
  }

  /** With the statics the class declares, an extension at `now` writes a TTL
      of one minute and an embedded expiry one minute ahead. */
  lemma ExtensionAddsExtendMinutes(codec: Codec, value: Value, now: int)
    requires RoundTrips(codec)
    requires Absent(codec.serialize(value), GracefulPrefix)
    ensures var blob := GetModifiedValue(Defaults, codec, value, Defaults.extendMinutes, now);
            && GetOriginalValue(Defaults, codec, blob) == value
            && GetExpirationTime(Defaults, blob) == now + 60
  {
    GracefulPrefixUnbordered();
    RoundTrip(Defaults, codec, value, Defaults.extendMinutes, now);
  }

  /** After an extension at `now`, the entry still holds the same value for
      every later reader, and it is fresh exactly while
      `t <= now + extendMinutes * 60 - expireThreshold`; with the defaults that
      window is empty after `now`, so each later reader extends it again. */
  lemma ExtendedEntryKeepsValue(cfg: Config, codec: Codec, value: Value, now: int, t: int)
    requires RoundTrips(codec)
    requires Absent(codec.serialize(value), cfg.gracefulPrefix)
    requires Unbordered(cfg.gracefulPrefix)
    ensures var blob := GetModifiedValue(cfg, codec, value, cfg.extendMinutes, now);
            && GetOriginalValue(cfg, codec, blob) == value
            && (!ExpiringSoon(cfg, GetExpirationTime(cfg, blob), t)
                <==> t <= now + cfg.extendMinutes * 60 - cfg.expireThreshold)
  {
    RoundTrip(cfg, codec, value, cfg.extendMinutes, now);
  }

  class GracefulCacheRepository {
    const store: Store
    const codec: Codec
    const config: Config

    constructor (store: Store, codec: Codec, config: Config)
      ensures this.store == store && this.codec == codec && this.config == config
    {
      this.store := store;
      this.codec := codec;
      this.config := config;
    }

    /** The blob an extension of the stored string `s` writes at `now`. */
    ghost function Extension(s: string, now: int): string {
      GetModifiedValue(config, codec, GetOriginalValue(config, codec, s), config.extendMinutes, now)
    }

    /** `get($key, $default)`, with `now` standing for `time()`.
        A miss returns the default and writes nothing. Any other stored value
        is read as the string PHP makes of it; it returns its decoded value
        (or the default when that is null), and if it is expiring soon, it is
        first re-put once with the extension TTL. A stored array raises and
        writes nothing. */
    method Get(key: string, default: Value, now: int) returns (r: Reply)
      modifies store
      ensures var raw := old(store.Lookup(key));
              raw.Null? ==>
                r == Returns(default) && store.entries == old(store.entries) && store.puts == old(store.puts)
      ensures var raw := old(store.Lookup(key));
              raw.Arr? ==>
                r == RaisesTypeError && store.entries == old(store.entries) && store.puts == old(store.puts)
      ensures var raw := old(store.Lookup(key)); var arg := StringArgument(raw);
              !raw.Null? && arg.Some? ==> r == Returns(OrDefault(GetOriginalValue(config, codec, arg.value), default))
      ensures var raw := old(store.Lookup(key)); var arg := StringArgument(raw);
              !raw.Null? && arg.Some? && !ExpiringSoon(config, GetExpirationTime(config, arg.value), now) ==>
                store.entries == old(store.entries) && store.puts == old(store.puts)
      ensures var raw := old(store.Lookup(key)); var arg := StringArgument(raw);
              !raw.Null? && arg.Some? && ExpiringSoon(config, GetExpirationTime(config, arg.value), now) ==>
                && store.entries == old(store.entries)[key := Entry(Str(Extension(arg.value, now)), config.extendMinutes)]
                && store.puts == old(store.puts) + [Write(key, Extension(arg.value, now), config.extendMinutes)]
    {
      var value := store.Get(key);
      if !value.Null? {
        var arg := StringArgument(value);
        if arg.None? {
          return RaisesTypeError;
        }
        var originalValue := GetOriginalValue(config, codec, arg.value);
        var expirationTime := GetExpirationTime(config, arg.value) - config.expireThreshold;
        if now > expirationTime {
          Put(key, originalValue, config.extendMinutes, now);
        }
        value := originalValue;
      }
      r := Returns(OrDefault(value, default));
    }

    /** `put($key, $value, $minutes)`: the encoded blob goes to the store under
        `key` with the same TTL; no other key changes. */
    method Put(key: string, value: Value, minutes: nat, now: int)
      modifies store
      ensures store.entries == old(store.entries)[key := Entry(Str(GetModifiedValue(config, codec, value, minutes, now)), minutes)]
      ensures store.puts == old(store.puts) + [Write(key, GetModifiedValue(config, codec, value, minutes, now), minutes)]
    {
      var modifiedValue := GetModifiedValue(config, codec, value, minutes, now);
      store.Put(key, modifiedValue, minutes);
    }
  }

  /** Reading an entry whose embedded expiry is long past, with the defaults:
      one extension put with a one-minute TTL, and the caller still gets the value. */
  method GetExpired(codec: Codec, key: string, value: Value, minutes: nat, writtenAt: int, now: int)
    returns (r: Reply, puts: seq<Write>)
    requires RoundTrips(codec)
    requires Absent(codec.serialize(value), GracefulPrefix)
    requires ExpiresAt(minutes, writtenAt) < now
    ensures r == Returns(value)
    ensures puts == [Write(key, GetModifiedValue(Defaults, codec, value, 1, now), 1)]
  {
    var blob := GetModifiedValue(Defaults, codec, value, minutes, writtenAt);
    var store := new Store(map[key := Entry(Str(blob), minutes)]);
    var repository := new GracefulCacheRepository(store, codec, Defaults);
    GracefulPrefixUnbordered();
    RoundTrip(Defaults, codec, value, minutes, writtenAt);
    r := repository.Get(key, Null, now);
    puts := store.puts;
  }
}
