# guidish: a verified model of the 128-bit identifier `id128_t`

guidish is a single C++ header, `include/guidish/guidish.h`. It defines `id128_t`, a 128-bit key. The key is a union of two `uint64_t` words (`nums.hi`, `nums.lo`) laid over sixteen octets. Generated keys are meant to increase monotonically:

- the 64-bit high word holds the epoch time in microseconds;
- the low word holds a 16-bit site identifier above a 48-bit CPU tick count.

This project models the header's operations in Dafny and proves what they promise.

- `words.dfy` (module `Words`): unsigned words as bounded integers (`u8`, `u16`, `u64`). It defines powers, little-endian byte extraction, and a bit-by-bit definition of `|` and `^` on n-bit words, with the arithmetic lemmas the rest relies on.
- `ids.dfy` (module `Ids`): an identifier as a value `Id128(hi, lo)` and its meaning `Value = hi * 2^64 + lo`. Covered:
  - `min()`, `max()`, `equals`, `lt`, `gt`;
  - the value effect of `incr`/`decr`, with carry, borrow and the 2^128 wrap;
  - the octet view of the union, taken little-endian as on x86;
  - the value `flip` leaves.
- `mutable.dfy` (module `Mutable`): an `id128_t` object, a class whose `hi`/`lo` fields are updated in place. It has:
  - the constructors and `operator =`;
  - `incr`, `decr`, and prefix and postfix `++`/`--`;
  - `flip`, whose swap loop runs over a 16-element octet array.
- `format.dfy` (module `Format`): `print` as a loop from octet 15 down to octet 0 that builds a string, and `toString`. Proved:
  - the output is the 32-digit lower-case hex of the value, with or without hyphens, on a stream with default formatting flags;
  - hyphens are placed as in the code;
  - removing the hyphens gives the plain hex;
  - rendering is injective;
  - the renderings of `min()` and `max()`.
- `generator.dfy` (module `Generator`): `gen()`, `gen(siteID)` and the `Gen` function object, with the clock readings as parameters. Proved:
  - the site and tick fields decode while the tick count fits in 48 bits;
  - sites are disjoint in that range;
  - one site's identifiers are monotonic;
  - the quirks past 2^48 ticks (see Findings);
  - a masked composition that keeps the site field intact and sites disjoint at any tick count. Same-site ordering still needs ticks below 2^48: with the mask, ticks 2^48 and 2^49 give the same identifier.
- `adapters.dfy` (module `Adapters`): the `std::hash`, `std::equal_to`, `std::less` and `std::greater` specialisations.

Conventions:

- `uint64_t` arithmetic is written on integers, with each wrap-around made explicit (`% 2^64`).
- Shifts are multiplication and division by powers of two.
- `std::hash<uint64_t>` is a parameter `h: u64 -> u64`.
- `size_t` is taken to be 64 bits wide.

## Model

| member | source | states |
|---|---|---|
| `Ids.FromValue` | include/guidish/guidish.h:51-53 | every 128-bit number is held by an identifier whose `hi * 2^64 + lo` is that number |
| `Ids.ValueInjective` | include/guidish/guidish.h:51-53 | two identifiers are equal exactly when their 128-bit values are equal |
| `Ids.Max` | include/guidish/guidish.h:55-58 | `max()` has both words all ones: the value 2^128 - 1 |
| `Ids.Min` | include/guidish/guidish.h:60-63 | `min()` has both words zero: the value 0 |
| `Ids.Equals` | include/guidish/guidish.h:133-135 | `equals` holds exactly when both words agree, that is when the 128-bit values are equal |
| `Ids.Lt` | include/guidish/guidish.h:137-141 | `lt`, which compares `hi` and then `lo`, holds exactly when the 128-bit value is smaller |
| `Ids.Gt` | include/guidish/guidish.h:143-147 | `gt` holds exactly when the 128-bit value is greater |
| `Ids.Trichotomy` | include/guidish/guidish.h:133-147 | exactly one of `equals`, `lt`, `gt` holds for any pair, and `gt(a, b)` iff `lt(b, a)` |
| `Ids.LtStrictOrder` | include/guidish/guidish.h:137-141 | `lt` is irreflexive, transitive and total on distinct identifiers |
| `Ids.MinMaxBound` | include/guidish/guidish.h:55-63 | nothing is below `min()` or above `max()`; every other identifier lies strictly between them |
| `Ids.Succ` | include/guidish/guidish.h:106-114 | the identifier `incr` leaves has value `(Value + 1) mod 2^128` |
| `Ids.Pred` | include/guidish/guidish.h:116-124 | the identifier `decr` leaves has value `(Value - 1) mod 2^128` |
| `Ids.SuccPredInverse` | include/guidish/guidish.h:106-124 | `decr` undoes `incr` and `incr` undoes `decr` for every identifier, across the wrap too |
| `Ids.StepsByValue` | include/guidish/guidish.h:106-124 | the carry and borrow code agrees with a reference definition: store `(Value + 1) mod 2^128` or `(Value - 1) mod 2^128` back into two words |
| `Ids.SuccWraps` | include/guidish/guidish.h:106-124 | `incr` takes `max()` to `min()` and `decr` takes `min()` to `max()` |
| `Ids.SuccIsNext` | include/guidish/guidish.h:106-114 | below `max()`, `incr` moves to the next identifier in `lt` order, with nothing in between |
| `Ids.OctetsOfFromOctets` | include/guidish/guidish.h:51-53 | writing sixteen octets into the union and reading them back returns the same octets |
| `Ids.FromOctetsOfOctets` | include/guidish/guidish.h:51-53 | reading an identifier's octets and writing them back returns the same identifier |
| `Ids.OctetOfValue` | include/guidish/guidish.h:51-53 | `octets[k]` is byte `k` of the 128-bit value, least significant first |
| `Ids.Flipped` | include/guidish/guidish.h:126-131 | after `flip`, octet `i` is the old octet `15 - i` |
| `Ids.FlipInvolution` | include/guidish/guidish.h:126-131 | flipping twice restores the identifier |
| `Ids.FlipFixesMin` | include/guidish/guidish.h:126-131 | `flip` leaves `min()` unchanged |
| `Ids.FlipFixesMax` | include/guidish/guidish.h:126-131 | `flip` leaves `max()` unchanged |
| `Mutable.ReverseOctets` | include/guidish/guidish.h:127-129 | swapping `octets[i]` and `octets[15 - i]` for `i` below 8 reverses the sixteen octets in place |
| `Mutable.Id128.constructor` | include/guidish/guidish.h:74 | `id128_t(hi, lo)` stores both words; the value is `hi * 2^64 + lo` |
| `Mutable.Id128.FromLo` | include/guidish/guidish.h:75 | `id128_t(lo)` has a zero upper word; the value is `lo` |
| `Mutable.Id128.Zero` | include/guidish/guidish.h:76 | `id128_t()` is `min()` |
| `Mutable.Id128.Copy` | include/guidish/guidish.h:77-79 | the copy constructor holds the same identifier as its argument |
| `Mutable.Id128.Assign` | include/guidish/guidish.h:80-84 | `operator =` makes the object hold the other's identifier |
| `Mutable.Id128.Incr` | include/guidish/guidish.h:106-114 | `lo` all ones becomes 0 with `hi` incremented mod 2^64; otherwise only `lo` grows by one; the value becomes `(Value + 1) mod 2^128` |
| `Mutable.Id128.Decr` | include/guidish/guidish.h:116-124 | `lo` zero becomes all ones with `hi` decremented mod 2^64; otherwise only `lo` drops by one; the value becomes `(Value - 1) mod 2^128` |
| `Mutable.Id128.PreIncrement` | include/guidish/guidish.h:86-88 | prefix `++` increments the object itself |
| `Mutable.Id128.PreDecrement` | include/guidish/guidish.h:90-92 | prefix `--` decrements the object itself |
| `Mutable.Id128.PostIncrement` | include/guidish/guidish.h:94-98 | postfix `++` returns a new incremented copy and leaves the object unchanged |
| `Mutable.Id128.PostDecrement` | include/guidish/guidish.h:100-104 | postfix `--` returns a new decremented copy and leaves the object unchanged |
| `Mutable.Id128.Flip` | include/guidish/guidish.h:126-131 | `flip` reverses the object's sixteen octets in place |
| `Format.Print` | include/guidish/guidish.h:149-157 | on a stream with default flags: without hyphens the output is the 32-digit zero-padded lower-case hex of the value; with hyphens it is that hex grouped 12-4-4-4-8 |
| `Format.ToString` | include/guidish/guidish.h:159-163 | `toString` prints with hyphens: 36 characters, the hex of the value grouped 12-4-4-4-8 |
| `Format.RenderedHex` | include/guidish/guidish.h:150-155 | octets 15 down to 0 as two hex digits each spell the value in 32 hex digits |
| `Format.RenderedGroups` | include/guidish/guidish.h:150-155 | hyphens before octets 9, 7, 5 and 3 split the 32 digits into groups of 12, 4, 4, 4 and 8 |
| `Format.HexOctetsValue` | include/guidish/guidish.h:154 | the two-digit renderings of octets `i - 1` down to `j` are the hex of the value's bytes `j` up to `i - 1` |
| `Format.StripRendered` | include/guidish/guidish.h:149-157 | removing the hyphens from the hyphenated output gives the 32-digit hex of the value |
| `Format.RenderedInjective` | include/guidish/guidish.h:149-157 | two identifiers that print the same in the same mode are equal |
| `Format.RenderedMin` | include/guidish/guidish.h:149-157 | `min()` prints `000000000000-0000-0000-0000-00000000` |
| `Format.RenderedMax` | include/guidish/guidish.h:149-157 | `max()` prints `ffffffffffff-ffff-ffff-ffff-ffffffff` |
| `Generator.GenPlain` | include/guidish/guidish.h:65-67 | `gen()` has value `micros * 2^64 + ticks` |
| `Generator.GenForSite` | include/guidish/guidish.h:69-73 | `gen(siteID)` keeps the microseconds in `hi`, the low 48 tick bits in the low 48 bits of `lo`, and the top 16 bits of `lo` are the site ORed with tick bits 48-63 |
| `Generator.GenDecode` | include/guidish/guidish.h:1-7 | below 2^48 ticks, `lo >> 48` is the site, `lo & (2^48 - 1)` is the tick count, and `lo` is `site * 2^48 + ticks` |
| `Generator.GenSiteZero` | include/guidish/guidish.h:65-73 | `gen(0)` is `gen()` |
| `Generator.DemoSiteDecodes` | src/guidish_sample_usage.cpp:9 | the demo's site 0xbeef reads back from `lo` below 2^48 ticks |
| `Generator.DemoSiteCorrupted` | include/guidish/guidish.h:71 | at tick count 2^52 the demo's site 0xbeef reads back as 0xbeff |
| `Generator.SitesCollide` | include/guidish/guidish.h:71 | site 0 at tick 2^48 and site 1 at tick 0 produce the same identifier in the same microsecond |
| `Generator.SitesDisjoint` | include/guidish/guidish.h:6-7 | below 2^48 ticks, different sites never produce the same identifier |
| `Generator.GenMonotonic` | include/guidish/guidish.h:9-10 | for one site, a later reading (`m1 <= m2`, `t1 < t2 < 2^48`) gives a greater identifier |
| `Generator.OrderFailsPastTickRange` | include/guidish/guidish.h:9-10 | past 2^48 the promise fails: for site 2, tick 2^49 gives a smaller identifier than tick 2^48 in the same microsecond |
| `Generator.GenForSiteMasked` | include/guidish/guidish.h:3-7 | with the ticks masked to 48 bits, `lo >> 48` is always the site and the low 48 bits are the ticks mod 2^48 |
| `Generator.MaskedSitesDisjoint` | include/guidish/guidish.h:6-7 | with the mask, different sites never produce the same identifier, whatever the tick counts |
| `Generator.MaskedTicksWrap` | include/guidish/guidish.h:9-10 | the mask does not restore the same-site ordering past 2^48: ticks 2^48 and 2^49 in the same microsecond give one site the same identifier |
| `Generator.MaskedAgrees` | include/guidish/guidish.h:69-73 | below 2^48 ticks the masked composition equals `gen(siteID)` as written |
| `Generator.Gen.Call` | include/guidish/guidish.h:216-218 | `Gen(site)()` is `gen(site_)` as written: `hi` is the microseconds, the low 48 bits of `lo` are the ticks', the top 16 bits are the site ORed with tick bits 48-63, and below 2^48 ticks `lo` is the site above the tick count |
| `Generator.CallSitesDisjoint` | include/guidish/guidish.h:212-221 | below 2^48 ticks, `Gen` objects for different sites never return the same identifier |
| `Generator.CallsCollide` | include/guidish/guidish.h:216-218 | past that range they can: `Gen(0)` at tick 2^48 returns what `Gen(1)` returns at tick 0 in the same microsecond |
| `Generator.CallAboveMin` | include/guidish/guidish.h:216-218 | a `Gen` for a nonzero site returns an identifier above `min()` at any reading with ticks below 2^48 |
| `Generator.CallMonotonic` | include/guidish/guidish.h:212-221 | one `Gen` called at a later reading, ticks below 2^48, returns a greater identifier |
| `Generator.GeneratedIncreasing` | src/guidish_sample_usage.cpp:15-27 | over readings whose microseconds never decrease and whose ticks strictly increase below 2^48, every identifier a `Gen` returns is greater than all earlier ones |
| `Generator.LoopChecksPass` | src/guidish_sample_usage.cpp:14-27 | the demo's loop, with `prev` starting at `id128_t()`: for a nonzero site and advancing readings, the first identifier is above `min()` and each later one above its predecessor, so neither the collision check nor the "less" check fires |
| `Adapters.ShiftLeft1` | include/guidish/guidish.h:188 | `<< 1` on a 64-bit `size_t` is twice the word with its top bit dropped |
| `Adapters.Hash` | include/guidish/guidish.h:186-190 | bit 0 of the hash is bit 0 of `hash(lo)`; every bit `k` from 1 to 63 is bit `k - 1` of `hash(hi)` XORed with bit `k` of `hash(lo)` |
| `Adapters.EqualTo` | include/guidish/guidish.h:191-196 | `std::equal_to` holds exactly when the 128-bit values are equal |
| `Adapters.Less` | include/guidish/guidish.h:197-202 | `std::less` holds exactly when the first value is smaller |
| `Adapters.Greater` | include/guidish/guidish.h:203-208 | `std::greater` holds exactly when the first value is greater |
| `Adapters.LessOrdersKeys` | include/guidish/guidish.h:191-208 | `less` is a strict weak order whose incomparability is `equal_to`, which is identity; `greater` is `less` reversed |
| `Adapters.HashAgreesWithEqualTo` | include/guidish/guidish.h:185-196 | identifiers that `equal_to` relates have equal hashes, whatever the word hash |
| `Adapters.HashDropsTopBit` | include/guidish/guidish.h:186-190 | identifiers with equal `lo` whose `hi` hashes differ only in the top bit hash equally |

## Left out

- `clock::micros()` and `clock::ticks()` (include/guidish/guidish.h:35-48) read the system clock and the time-stamp counter. The readings are parameters. Tick monotonicity is a precondition of the ordering lemmas, not something proved.
- The union's overlapping storage is not modelled as memory. The octets are explicit byte accessors over `hi`/`lo`, assuming the little-endian x86 layout the header targets.
- `std::hash<uint64_t>` is implementation-defined and becomes the parameter `h`. `Adapters.Hash` is the composition `(h(hi) << 1) ^ h(lo)` on 64 bits, and the properties are stated about it.
- `print` writes to a `std::ostream` through `std::hex`, `setw` and `setfill`. The model produces the string that reaches a stream with default flags. `toString`'s `ostringstream` is the returned string.
- `print` sets only the base, the width and the fill of the caller's stream. The model assumes a stream with default flags otherwise. With `std::uppercase`, `std::showbase` or `std::left` set by the caller, the characters differ. The model also drops `print`'s effect of leaving the stream with fill `'0'` and base `dec`.
- `print` groups the digits 12-4-4-4-8, not the 8-4-4-4-12 of section 3 of RFC 4122. The model follows the code.
- The free operators `==`, `<` and `>` (include/guidish/guidish.h:167-177) only forward to `equals`, `lt` and `gt`, and are not modelled separately. Likewise `operator <<` (include/guidish/guidish.h:179-181) forwards to `print`.
- `incr`, `decr`, `flip` and `operator =` return `*this` for chaining. The model's methods return nothing and update the object.
- The `Gen` constructor and its virtual destructor (include/guidish/guidish.h:214-215) are modelled by the datatype `Generator.Gen`, which holds the site.
- The demo program (src/guidish_sample_usage.cpp) writes to streams and times a million calls. Its ordering and collision checks, including the first comparison against `id128_t()`, are covered by `Generator.GeneratedIncreasing` and `Generator.LoopChecksPass`, under the precondition that the readings advance.

## Findings

| source | as written | input that shows it | evidently intended | confidence | as-written member | corrected member |
|---|---|---|---|---|---|---|
| include/guidish/guidish.h:71 | `lo` is `ticks` ORed with `siteID << 48`; the tick count is not masked to the 48 bits the layout gives it | site 0 at tick 2^48 and site 1 at tick 0 give the same identifier in the same microsecond. Site 0xbeef at tick 2^52 reads back as 0xbeff. | `ticks & (2^48 - 1)` ORed with `siteID << 48`: the 16-bit site above a 48-bit tick field (lines 3 and 6-7) | not executed | `Generator.SitesCollide` | `Generator.GenForSiteMasked` |
