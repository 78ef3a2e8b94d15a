# Graceful cache repository, modelled in Dafny

This project models the graceful cache repository of `maherio/graceful-cache`, a decorator that sits in front of a
key/value cache store. Every value it stores carries its own absolute expiry time. The stored blob is the
serialized value, then the separator `?GracefulCacheExpiration=`, then the expiry as a decimal Unix timestamp.
When a reader finds an entry within `expireThreshold` seconds of that expiry, the repository writes the entry back
with a short extension TTL. That way the other readers keep getting hits while the value is rebuilt.

The repository has two variants, and each one is modelled in its own module:

- `MissOnExpiring` (`src/GracefulCache/Repository.php`): an expiring entry is extended, and this reader gets the
  default back, as if it had missed, so that it recomputes the value. Its decoders accept a stored value only when
  it is a string with the separator at a positive index. Anything else is a legacy value: it is returned unchanged
  and expires at 0.
- `ServeStale` (`src/GracefulCache/Repository/GracefulCacheRepository.php`): an expiring entry is extended, and the
  reader still gets the decoded value. Its decoders have no string check and no missing-separator guard. The model
  keeps them total by following PHP: `strpos`'s `false` counts as offset 0, and a `substr` past the end gives `""`. A
  stored integer or boolean reaches them as the string PHP coerces it to; only an array raises.

Shared pieces:

- `PhpValue`: the PHP values that pass through the repository.
- `PhpValue.Codec`: PHP's `serialize`/`unserialize`, passed in as a pair of functions. `RoundTrips` is the one
  law assumed about them.
- `PhpString`: `strpos` and `substr`.
- `PhpInt`: decimal conversion and the `(int)` cast.
- `Envelope`: the blob format, `getModifiedValue`, and the expiring-soon test.
- `BackingStore.Store`: the decorated store, as a class. It holds a map from key to raw value and TTL, plus the
  log of every `put` it received.

The two repositories are classes over a `Store`. Their `Get` and `Put` methods change the store in place, and
their postconditions give the new map and the new `put` log.

External inputs become parameters:

- The clock (`time()`) is a `now` argument.
- The serializer is a `Codec` argument.
- The class statics are a `Config` value: separator, extension minutes, and threshold seconds.

The model follows the code in two places where a reader might expect otherwise:

- An entry is expiring soon only when `now > expiresAt - expireThreshold`, which is strict (Repository.php:89). At
  equality the entry is still fresh.
- The serve-stale variant has no legacy pass-through. A string without the separator decodes to
  `unserialize("")`; see `ServeStale.MissingSeparator`.

## Model

| member | source | states |
|---|---|---|
| `PhpString.StrPos` | src/GracefulCache/Repository.php:47 | `strpos` gives the index of the first occurrence of the separator (it occurs there and at no earlier index), and `false` exactly when it occurs nowhere |
| `PhpString.StrPosFrom` | src/GracefulCache/Repository.php:64 | the scan behind `strpos`: the first occurrence at or after a start index, and none before it |
| `PhpInt.IntCastOfDecimal` | src/GracefulCache/Repository.php:66 | the `(int)` cast of the decimal string that `.` makes of an integer gives that integer back, for every integer |
| `PhpValue.OrDefault` | src/GracefulCache/Repository.php:102 | `! is_null($value) ? $value : value($default)`: the result is the value or the default, and is null only when both are |
| `PhpString.SubstrFrom` | src/GracefulCache/Repository.php:66 | `substr($value, $start)`: the suffix of the string that starts at `start`, and `""` past the end; specified by its own contract (length and suffix), used alike at GracefulCacheRepository.php:47 and 59 |
| `PhpString.SubstrDropTail` | src/GracefulCache/Repository.php:50 | `substr($value, 0, 0 - $length)`: the prefix without the last `length` characters, and `""` when `length` is 0; specified by its own contract (length and prefix), used alike at GracefulCacheRepository.php:48 |
| `PhpInt.IntToDecimal` | src/GracefulCache/Repository.php:37 | the decimal string `.` makes of the expiry; specified by `PhpInt.IntCastOfDecimal` |
| `BackingStore.Store.Get` | src/GracefulCache/Repository.php:81 | the decorated store's `get`: the stored raw value for a held key, null for a missing one |
| `Envelope.ExpiresAt` | src/GracefulCache/Repository.php:36 | the expiry `time() + minutes * 60` is never before the time of writing |
| `Envelope.GracefulPrefixUnbordered` | src/GracefulCache/Repository.php:12 | the separator `?GracefulCacheExpiration=` cannot overlap itself, so it cannot start inside the serialized value and run into the separator written after it |
| `Envelope.ModifiedValueSplits` | src/GracefulCache/Repository.php:34-38 | for a serialized value with no separator in it, the first separator in `getModifiedValue`'s blob is right after the serialized value, the text before it is exactly the serialized value, and the text after it casts to `now + minutes * 60`; the serve-stale copy (GracefulCacheRepository.php:34-38) is the same function |
| `Envelope.GetModifiedValue` | src/GracefulCache/Repository.php:34-38 | the blob is longer than the serialized value and the separator together; specified by `Envelope.ModifiedValueSplits` and by both variants' `RoundTrip` |
| `Envelope.ExpiringSoon` | src/GracefulCache/Repository.php:86-89 | the strict test `time() > expiry - expireThreshold`; specified through `MissOnExpiring.ExtendedEntryServesReaders` and `ServeStale.ExtendedEntryKeepsValue`, which give the exact window in which an extended entry is fresh |
| `PhpInt.IntCast` | src/GracefulCache/Repository.php:66 | PHP's `(int)` cast of a string: leading whitespace, an optional sign, then the longest run of digits; specified by `PhpInt.IntCastOfDecimal` |
| `BackingStore.Store.Put` | src/GracefulCache/Repository.php:119 | the decorated store's `put`: the key maps to the blob with its TTL, every other key is unchanged, and the write is appended to the store's log |
| `MissOnExpiring.SuffixIndex` | src/GracefulCache/Repository.php:46-48 | the decoders split only a string, at the first occurrence of the separator; the result is none exactly when the value is not a string, has no separator, or has it at index 0, which is falsy |
| `MissOnExpiring.GetOriginalValue` | src/GracefulCache/Repository.php:45-55 | specified by `MissOnExpiring.DecodeAtFirstSeparator` and `MissOnExpiring.LegacyPassThrough`, and tied to the encoder by `MissOnExpiring.RoundTrip` |
| `MissOnExpiring.GetExpirationTime` | src/GracefulCache/Repository.php:62-70 | specified by `MissOnExpiring.DecodeAtFirstSeparator` and `MissOnExpiring.LegacyPassThrough`, and tied to the encoder by `MissOnExpiring.RoundTrip` |
| `MissOnExpiring.DecodeAtFirstSeparator` | src/GracefulCache/Repository.php:45-70 | a string whose first separator is at index `i > 0` decodes to `unserialize` of the text before it and expires at the cast of the text after it |
| `MissOnExpiring.LegacyPassThrough` | src/GracefulCache/Repository.php:45-70 | a non-string, a string without the separator, and a string that starts with it are returned unchanged and expire at 0 |
| `MissOnExpiring.RoundTrip` | src/GracefulCache/Repository.php:34-70 | `getOriginalValue(getModifiedValue(v, m)) == v` and `getExpirationTime(getModifiedValue(v, m)) == now + m * 60`, when `serialize(v)` is non-empty and has no separator |
| `MissOnExpiring.EmptySerializationReadsAsLegacy` | src/GracefulCache/Repository.php:48 | the round trip's non-empty condition is needed: an empty serialization puts the separator at index 0, and the blob reads back as a legacy value expiring at 0 |
| `MissOnExpiring.ExtendedEntryServesReaders` | src/GracefulCache/Repository.php:86-95 | after an extension at `now`, the stored entry still decodes to the same value, and readers at time `t` find it fresh exactly while `t <= now + extendMinutes * 60 - expireThreshold` (270 seconds with the defaults) |
| `MissOnExpiring.Repository.Get` | src/GracefulCache/Repository.php:80-103 | a miss returns the default, with no write; a fresh entry returns its original value, with no write; an expiring entry, a legacy one included, gets exactly one `put` of `getModifiedValue(original, extendMinutes)` with TTL `extendMinutes`, and the caller gets the default |
| `MissOnExpiring.Repository.Put` | src/GracefulCache/Repository.php:113-120 | the store gets exactly one `put`, of `key ↦ getModifiedValue(value, minutes)` with TTL `minutes`; every other key is unchanged |
| `MissOnExpiring.PutThenGet` | tests/GracefulCacheRepositoryTest.php:121-137 | putting a value for at least one minute and reading it back at once returns it, and the store sees only the one `put` |
| `MissOnExpiring.GetLegacy` | tests/GracefulCacheRepositoryTest.php:139-158 | reading a legacy string returns the default and issues exactly one `put`, of the re-encoded string with the 5-minute extension TTL |
| `ServeStale.StringArgument` | src/GracefulCache/Repository/GracefulCacheRepository.php:46 | the string PHP passes to `strpos` and `substr` for a stored value: a string is itself, an integer's string casts back to it, and only an array has none |
| `ServeStale.SuffixIndex` | src/GracefulCache/Repository/GracefulCacheRepository.php:46 | the split index is the first occurrence of the separator, and 0 when there is none (`strpos`'s `false` counts as 0); it is never past the end of the string |
| `ServeStale.GetOriginalValue` | src/GracefulCache/Repository/GracefulCacheRepository.php:45-50 | specified by `ServeStale.DecodeAtFirstSeparator` and `ServeStale.MissingSeparator`, and tied to the encoder by `ServeStale.RoundTrip` |
| `ServeStale.GetExpirationTime` | src/GracefulCache/Repository/GracefulCacheRepository.php:57-60 | specified by `ServeStale.DecodeAtFirstSeparator` and `ServeStale.MissingSeparator`, and tied to the encoder by `ServeStale.RoundTrip` |
| `ServeStale.DecodeAtFirstSeparator` | src/GracefulCache/Repository/GracefulCacheRepository.php:45-60 | when the separator is present, first found at any index `i >= 0`, the value is `unserialize` of the text before it and the expiry is the cast of the text after it |
| `ServeStale.MissingSeparator` | src/GracefulCache/Repository/GracefulCacheRepository.php:45-60 | without the separator there is no pass-through: the value is `unserialize("")`, and the expiry is the cast of whatever follows the first `strlen(prefix)` characters |
| `ServeStale.StoredIntDecodesAsEmpty` | src/GracefulCache/Repository/GracefulCacheRepository.php:45-50 | a stored integer is read as its decimal string, which holds no separator, so it decodes as `unserialize("")` |
| `ServeStale.RoundTrip` | src/GracefulCache/Repository/GracefulCacheRepository.php:34-60 | `getOriginalValue(getModifiedValue(v, m)) == v` and the expiry is `now + m * 60`, when `serialize(v)` has no separator; here an empty serialization is fine |
| `ServeStale.AsWrittenExtensionAddsNoTime` | src/GracefulCache/Repository/GracefulCacheRepository.php:76-82 | with the threshold and extension that `get` actually reads (both null, which acts as 0 in the arithmetic), an extension writes an expiry equal to `now`, and the store is put `getMinutes(null)`, which the model records as TTL 0, so the entry is expiring again one second later |
| `ServeStale.ExtensionAddsExtendMinutes` | src/GracefulCache/Repository/GracefulCacheRepository.php:14-25 | with the statics the class declares (1 minute, 60 seconds), an extension keeps the value and writes an expiry one minute after `now` |
| `ServeStale.ExtendedEntryKeepsValue` | src/GracefulCache/Repository/GracefulCacheRepository.php:79-86 | after an extension at `now`, the entry decodes to the same value, and it is fresh at `t` exactly while `t <= now + extendMinutes * 60 - expireThreshold`; with the defaults no later reader sees it fresh, so each one extends it again |
| `ServeStale.GracefulCacheRepository.Get` | src/GracefulCache/Repository/GracefulCacheRepository.php:70-90 | a miss returns the default, with no write; any other stored value is read as the string PHP makes of it and returns its decoded value (or the default if that is null), after exactly one `put` of `getModifiedValue(original, extendMinutes)` with TTL `extendMinutes` if it was expiring, and with no write otherwise; a stored array raises, with no write |
| `ServeStale.GracefulCacheRepository.Put` | src/GracefulCache/Repository/GracefulCacheRepository.php:100-107 | the store gets exactly one `put`, of `key ↦ getModifiedValue(value, minutes)` with TTL `minutes`; every other key is unchanged |
| `ServeStale.GetExpired` | src/GracefulCache/Repository/GracefulCacheRepository.php:79-89 | with the declared statics, reading an entry whose embedded expiry has passed still returns its value, and issues exactly one `put` with the one-minute extension TTL |

## Findings

| source | as written | input that shows it | evidently intended | confidence | as-written member | corrected member |
|---|---|---|---|---|---|---|
| src/GracefulCache/Repository/GracefulCacheRepository.php:76-82 | `get` reads `$this->expireThreshold` and `$this->extendMinutes`, but the class declares both as static (lines 18, 25). An instance-property read of a static property finds nothing, and PHP evaluates it to null, which acts as 0 | any `get` of an expiring entry, e.g. a legacy value or a blob whose expiry is past: the extension embeds an expiry of `now`, and the store is put `getMinutes(null)`, which the model records as TTL 0 | `static::$expireThreshold` (60 s) and `static::$extendMinutes` (1 min), as `Repository.php` reads them at lines 86 and 92 | medium, not executed; where notices are turned into exceptions, the read raises instead | `ServeStale.AsWrittenExtensionAddsNoTime` | `ServeStale.ExtensionAddsExtendMinutes` |

The rest of the model gives the serve-stale repository the declared statics (`ServeStale.Defaults`).
`ServeStale.AsWrittenDefaults` holds the values as written.

## Left out

- `ServeStale.AsWrittenDefaults`: the as-written extension passes a null TTL through `getMinutes`, and stores may read null differently from 0; the model's TTLs are natural numbers, so it records 0.
- `CacheManager.php` and `ServiceProvider.php`: framework wiring with no logic of its own.
- Inherited operations of the base repository (`has`, `forget`, `remember`, ...) and its `getMinutes`
  normalisation: the framework's base repository class is not part of this model. Minutes are natural numbers
  here; `DateTime` and float TTLs (as in tests/GracefulCacheRepositoryTest.php:163) are not modelled.
- The internals of PHP's `serialize`/`unserialize`. They are an abstract `Codec` argument. The lemmas assume
  `RoundTrips` and, per value, a serialization that is free of the separator (and non-empty for the
  miss-on-expiring decoders).
- `time()`: a `now` argument, read once per operation. The source reads the clock again inside `put` during a
  `get`, so in the source the extension's expiry may be a second later than the one the model computes.
- The `value($default)` thunk: the default is a plain value.
- The store's own TTL and eviction: each entry records its TTL, but entries never expire inside the store.
- Concurrent readers extending the same key: the source has no coordination, and the model is sequential.
- 64-bit integers: `time() + minutes * 60` overflowing into a float, and the `(int)` cast saturating at
  `PHP_INT_MAX`, are not modelled. Integers are unbounded.
- The `(int)` cast's exponent forms (`"1e3"`) are not modelled. It reads leading whitespace, a sign and digits only.
- `strpos` with an empty needle follows PHP 8, which finds it at 0. PHP 7 returns `false` with a warning.
- Floats and objects as cached values.
- `ServeStale.GracefulCacheRepository.Get` on a stored array: modelled as the type error `strpos` raises in PHP 8
  (or a PHP 7 warning promoted to an exception by the framework's error handler). PHP 7's plain
  warning-and-continue path is not modelled. Integers, booleans and null are coerced to strings, as PHP does
  without strict types.
- `ServeStale.GracefulCacheRepository.Get`: the notices raised by the `$this->` property reads are not modelled as
  exceptions. Their null values are covered under Findings.
