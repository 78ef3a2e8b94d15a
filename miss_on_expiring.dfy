/** `GracefulCache\Repository`: on an expiring entry it extends the stored entry
    and reports a miss, so that this one caller recomputes the value. */
module MissOnExpiring {
  import opened PhpValue
  import opened PhpString
  import opened PhpInt
  import opened Envelope
  import opened BackingStore

  /** The class statics: separator, 5 extension minutes, a 30-second threshold. */
  const Defaults: Config := Config(GracefulPrefix, 5, 30)

  /** Where the decoders split a stored value: the `strpos` result, when the
      value is a string and `if($suffixIndex)` lets the result through. Index 0
      is falsy in PHP, so a separator at the very start counts as none. */
  function SuffixIndex(cfg: Config, raw: Value): (r: Option<nat>)
    ensures r.Some? ==> raw.Str? && 0 < r.value && OccursAt(raw.s, cfg.gracefulPrefix, r.value)
    ensures r.Some? ==> forall j: nat :: j < r.value ==> !OccursAt(raw.s, cfg.gracefulPrefix, j)
    ensures r.None? <==> !raw.Str? || Absent(raw.s, cfg.gracefulPrefix) || OccursAt(raw.s, cfg.gracefulPrefix, 0)
  {
    if raw.Str? then
      match StrPos(raw.s, cfg.gracefulPrefix)
      case Some(i) => if i > 0 then Some(i) else None
      case None => None
    else None
  }

  /** `getOriginalValue($value)`. */
  function GetOriginalValue(cfg: Config, codec: Codec, raw: Value): Value {
    match SuffixIndex(cfg, raw)
    case Some(suffixIndex) =>
      var suffixLength := |raw.s[suffixIndex..]|;
      codec.unserialize(SubstrDropTail(raw.s, suffixLength))
    case None => raw
  }

  /** `getExpirationTime($value)`. */
  function GetExpirationTime(cfg: Config, raw: Value): int {
    match SuffixIndex(cfg, raw)
    case Some(expirationIndex) => IntCast(SubstrFrom(raw.s, expirationIndex + |cfg.gracefulPrefix|))
    case None => 0
  }

  /** The decoders split a string at its first separator when that is at a positive index. */
  lemma SuffixIndexAtFirstSeparator(cfg: Config, s: string, i: nat)
    requires 0 < i && OccursAt(s, cfg.gracefulPrefix, i)
    requires forall j: nat :: j < i ==> !OccursAt(s, cfg.gracefulPrefix, j)
    ensures SuffixIndex(cfg, Str(s)) == Some(i)
  {
    assert !Absent(s, cfg.gracefulPrefix);
  }

  /** A string whose first separator is at a positive index decodes to the
      unserialized text before it, and to the cast of the text after it. */
  lemma DecodeAtFirstSeparator(cfg: Config, codec: Codec, s: string, i: nat)
    requires 0 < i && OccursAt(s, cfg.gracefulPrefix, i)
    requires forall j: nat :: j < i ==> !OccursAt(s, cfg.gracefulPrefix, j)
    ensures GetOriginalValue(cfg, codec, Str(s)) == codec.unserialize(s[..i])
    ensures GetExpirationTime(cfg, Str(s)) == IntCast(s[i + |cfg.gracefulPrefix|..])
  {
    SuffixIndexAtFirstSeparator(cfg, s, i);
    assert SubstrDropTail(s, |s[i..]|) == s[..i];
  }

  /** Legacy pass-through: a non-string, a string without the separator, and a
      string that starts with it are returned unchanged and expire at 0. */
  lemma LegacyPassThrough(cfg: Config, codec: Codec, raw: Value)
    requires raw.Str? ==> Absent(raw.s, cfg.gracefulPrefix) || OccursAt(raw.s, cfg.gracefulPrefix, 0)
    ensures GetOriginalValue(cfg, codec, raw) == raw
    ensures GetExpirationTime(cfg, raw) == 0
  {
    if raw.Str? && !Absent(raw.s, cfg.gracefulPrefix) {
      assert StrPos(raw.s, cfg.gracefulPrefix) == Some(0);
    }
  }

  /** Decoding an encoded blob gives back the value and its expiry, when the
      serialized value is non-empty and holds no separator. */
  lemma RoundTrip(cfg: Config, codec: Codec, value: Value, minutes: nat, now: int)
    requires RoundTrips(codec)
    requires |codec.serialize(value)| > 0
    requires Absent(codec.serialize(value), cfg.gracefulPrefix)
    requires Unbordered(cfg.gracefulPrefix)
    ensures var blob := Str(GetModifiedValue(cfg, codec, value, minutes, now));
            && GetOriginalValue(cfg, codec, blob) == value
            && GetExpirationTime(cfg, blob) == ExpiresAt(minutes, now)
  {
    ModifiedValueSplits(cfg, codec, value, minutes, now);
    var blob := GetModifiedValue(cfg, codec, value, minutes, now);
    DecodeAtFirstSeparator(cfg, codec, blob, |codec.serialize(value)|);
  }

  /** Why the round trip needs a non-empty serialization: an empty one puts the
      separator at index 0, and the blob then reads as a legacy value. */
  lemma EmptySerializationReadsAsLegacy(cfg: Config, codec: Codec, value: Value, minutes: nat, now: int)
    requires codec.serialize(value) == []
    ensures var blob := Str(GetModifiedValue(cfg, codec, value, minutes, now));
            && GetOriginalValue(cfg, codec, blob) == blob
            && GetExpirationTime(cfg, blob) == 0
  {
    var blob := GetModifiedValue(cfg, codec, value, minutes, now);
    assert blob[..|cfg.gracefulPrefix|] == cfg.gracefulPrefix;
    LegacyPassThrough(cfg, codec, Str(blob));
  }

  /** After an extension at `now`, readers at time `t >= now` get the value back
      exactly while `t <= now + extendMinutes * 60 - expireThreshold`; with the
      defaults that is 270 seconds. */
  lemma ExtendedEntryServesReaders(cfg: Config, codec: Codec, value: Value, now: int, t: int)
    requires RoundTrips(codec)
    requires |codec.serialize(value)| > 0
    requires Absent(codec.serialize(value), cfg.gracefulPrefix)
    requires Unbordered(cfg.gracefulPrefix)
    ensures var blob := Str(GetModifiedValue(cfg, codec, value, cfg.extendMinutes, now));
            && GetOriginalValue(cfg, codec, blob) == value
            && (!ExpiringSoon(cfg, GetExpirationTime(cfg, blob), t)
                <==> t <= now + cfg.extendMinutes * 60 - cfg.expireThreshold)
  {
    RoundTrip(cfg, codec, value, cfg.extendMinutes, now);
  }

  class Repository {
    const store: Store
    const codec: Codec
    const config: Config

    constructor (store: Store, codec: Codec, config: Config)
      ensures this.store == store && this.codec == codec && this.config == config
    {
      this.store := store;
      this.codec := codec;
      this.config := config;
    }

    /** The blob an extension of `raw` writes at `now`. */
    ghost function Extension(raw: Value, now: int): string {
      GetModifiedValue(config, codec, GetOriginalValue(config, codec, raw), config.extendMinutes, now)
    }

    /** `get($key, $default)`, with `now` standing for `time()`.
        A miss returns the default and writes nothing. A fresh entry returns its
        original value and writes nothing. An expiring entry (a legacy one
        included, as it expires at 0) is re-put once with the extension TTL, and
        the caller gets the default. */
    method Get(key: string, default: Value, now: int) returns (r: Value)
      modifies store
      ensures var raw := old(store.Lookup(key));
              raw.Null? ==>
                r == default && store.entries == old(store.entries) && store.puts == old(store.puts)
      ensures var raw := old(store.Lookup(key));
              !raw.Null? && !ExpiringSoon(config, GetExpirationTime(config, raw), now) ==>
                && r == OrDefault(GetOriginalValue(config, codec, raw), default)
                && store.entries == old(store.entries) && store.puts == old(store.puts)
      ensures var raw := old(store.Lookup(key));
              !raw.Null? && ExpiringSoon(config, GetExpirationTime(config, raw), now) ==>
                && r == default
                && store.entries == old(store.entries)[key := Entry(Str(Extension(raw, now)), config.extendMinutes)]
                && store.puts == old(store.puts) + [Write(key, Extension(raw, now), config.extendMinutes)]
    {
      var value := store.Get(key);
      if !value.Null? {
        var originalValue := GetOriginalValue(config, codec, value);
        var expirationTime := GetExpirationTime(config, value) - config.expireThreshold;
        if now > expirationTime {
          Put(key, originalValue, config.extendMinutes, now);
          value := Null;
        } else {
          value := originalValue;
        }
      }
      r := OrDefault(value, default);
    }

    /** `put($key, $value, $minutes)`: the encoded blob goes to the store under
        `key` with the same TTL; no other key changes. */
    method Put(key: string, value: Value, minutes: nat, now: int)
      modifies store
      ensures store.entries == old(store.entries)[key := Entry(Str(GetModifiedValue(config, codec, value, minutes, now)), minutes)]
      ensures store.puts == old(store.puts) + [Write(key, GetModifiedValue(config, codec, value, minutes, now), minutes)]
    {
      var modifiedValue := GetModifiedValue(config, codec, value, minutes, now);
      store.Put(key, modifiedValue, minutes);
    }
  }

  /** Putting a value and reading it back at the same instant returns it and
      issues no extension, for any TTL of at least one minute. */
  method PutThenGet(codec: Codec, key: string, value: Value, minutes: nat, now: int)
    returns (r: Value, puts: seq<Write>)
    requires RoundTrips(codec)
    requires |codec.serialize(value)| > 0
    requires Absent(codec.serialize(value), GracefulPrefix)
    requires minutes >= 1
    ensures r == value
    ensures puts == [Write(key, GetModifiedValue(Defaults, codec, value, minutes, now), minutes)]
  {
    var store := new Store(map[]);
    var repository := new Repository(store, codec, Defaults);
    repository.Put(key, value, minutes, now);
    GracefulPrefixUnbordered();
    RoundTrip(Defaults, codec, value, minutes, now);
    r := repository.Get(key, Null, now);
    puts := store.puts;
  }

  /** Reading a legacy string (no separator) at a non-negative time extends it
      once with the extension TTL and returns the default. */
  method GetLegacy(codec: Codec, key: string, legacy: string, default: Value, now: int)
    returns (r: Value, puts: seq<Write>)
    requires Absent(legacy, GracefulPrefix)
    requires now >= 0
    ensures r == default
    ensures puts == [Write(key, GetModifiedValue(Defaults, codec, Str(legacy), 5, now), 5)]
  {
    var store := new Store(map[key := Entry(Str(legacy), 0)]);
    var repository := new Repository(store, codec, Defaults);
    LegacyPassThrough(Defaults, codec, Str(legacy));
    r := repository.Get(key, default, now);
    puts := store.puts;
  }
}
