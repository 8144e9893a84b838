# sunny16 exposure model

This is a Dafny model of the sunny16 exposure library. The library works
over two fixed tables of standard stops: f-numbers from f/0.7 to f/520 and
shutter speeds from 1/16000 to 64 seconds. Each row holds a stop number and
a nominal value. Given an exposure value (EV) or light value (LV) and a film
speed, the library lists the camera settings that give it. Given a nominal
f-number and shutter speed, it computes the EV or LV.

The model covers:

- the table constants;
- the range clipper `clip` and the selectors;
- the table accessors and the "decoration" of rows with their exact
  magnitudes;
- the exposure equations;
- three variants of the settings resolvers:
  - the stateless functions of `src/sunny16.ts`;
  - the `Sunny16` class of `src/index.ts`, which keeps its bounded,
    decorated tables in two fields that its setters reassign;
  - the legacy JavaScript build in `lib/`, whose rows are positional arrays
    `[stop, nominal, exact]`.

Modules:

| module | models |
|---|---|
| `Wrappers` | `Option`, and `Result` for the legacy functions that throw a `TypeError` |
| `Magnitudes` | positive numbers as exact powers of two (`Magnitude(log2)`); film speed as stops above ISO 100 |
| `Types` | table rows (`Stop` / `ExactStop`), settings, configurations |
| `JsArray` | `findIndex`, `find`, `slice`, `map`, `filter` as JavaScript defines them |
| `Helpers` | `src/helpers.ts` |
| `Equations` | `src/equations.ts` |
| `FNumbers`, `ShutterSpeeds` | `src/constants/fNumber.ts`, `src/constants/shutterSpeed.ts` |
| `StopDomain` | reference definitions of the queries, stated on stop numbers alone |
| `Sunny16` | `src/sunny16.ts` |
| `Index` | `src/index.ts`; the class `Index.Sunny16` |
| `LibData`, `LibEquations`, `LibIndex` | `lib/data.js`, `lib/equations.js`, `lib/index.js` |

**Numbers.** The exact values are `sqrt(2) ** stop` for f-numbers and
`2 ** stop` for shutter speeds. The equations only multiply, divide, square,
take roots and powers of two, and take `log2`. On positive numbers written
as `2 ** x`, all of these are exact operations on `x`. So a number is
modelled by its base-2 logarithm, a real. `Math.round` is modelled as
rounding half up.

**Film speed.** A film speed is its stops above ISO 100: ISO 100·2^k is
`FilmSpeed(k)`. A film speed that is not ISO 100·2^k has non-whole stops.
With the epsilon match read as equality (below), no table row matches such a
film speed. The model proves this from that assumption; it is not a separate
assumption. The source itself can still match such a film speed; see
"## Left out".

**Epsilon match.** The source matches exact values within an epsilon:
1e-7 in `src/helpers.ts`, 1e-5 in `lib/`. The model takes that match as
equality of magnitudes. This is the one modelling assumption about floating
point. The source's test is an absolute difference (`Math.abs(a - b) < eps`),
so it is not the same as equality. A computed value that lies within the
epsilon of a row matches that row in the source, even when the model's
stops are not whole. That happens mostly for the shortest shutter speeds,
whose values are smallest.

With these choices, every query reduces to arithmetic on stops.

- The shutter speed that `byFNumber` computes for the f-number at stop `a`
  is the row at stop `a - ev - k`. Here `k` is the film speed's stops.
- The f-number that `byShutterSpeed` computes for the shutter speed at stop
  `b` is the row at stop `b + ev + k`.
- The exposure value of stops `a` and `b` is `a - b`.

`StopDomain` states each query this way, and every resolver (TypeScript,
class and legacy) is proved equal to it.

Two constants are imported by the source but are not part of this model:
`src/constants/exposureValue` and `src/constants/filmSpeed`. The
exposure-value table is the parameter `evs`, and the film-speed table is
the parameter `filmSpeeds`. The root `constants/` files that `lib/data.js`
loads are also not part of this model. They are taken to hold the same
`[stop, nominal]` rows as `src/constants`.

## Model

| member | source | states |
|---|---|---|
| Helpers.WithDefault | src/helpers.ts:5-8 | -1 (not found) becomes the default; a found index is kept |
| Helpers.IncrementIfNotLast | src/helpers.ts:10-13 | one past an index below the length; the length otherwise; never past the end for an index within the array |
| Helpers.Clip | src/helpers.ts:2-19 | the result is no longer than the array; with neither predicate it is the whole array |
| Helpers.ClipSlice | src/helpers.ts:15-18 | clip is `arr[s..e]`: `s` is the first index matching `min` (0 when absent or unmatched), `e` is one past the first index matching `max` (the length when absent or unmatched); empty when `e < s` |
| Helpers.ClipCrossedBounds | src/helpers.ts:18 | when the first `max` match comes before the first `min` match, the result is empty |
| Helpers.ClipFromStartExample | src/__tests__/helpers.spec.ts:11-14 | on `['foo','bar','baz','foobar','foobaz']`, a `min` that matches nothing and `max` = 'baz' give `['foo','bar','baz']` |
| Helpers.ClipToEndExample | src/__tests__/helpers.spec.ts:16-19 | `min` = 'baz' and a `max` that matches nothing give `['baz','foobar','foobaz']` |
| Helpers.ClipBetweenExample | src/__tests__/helpers.spec.ts:21-24 | `min` = 'baz' and `max` = 'foobaz' give `['baz','foobar','foobaz']` |
| Helpers.ClipMap | src/helpers.ts:2-19 | clipping a mapped array equals mapping the array clipped by the pulled-back predicates |
| Helpers.CompareFloats | src/helpers.ts:22-25 | a true result means the difference is under the epsilon; equal numbers compare true |
| Helpers.CompareFloatsSymmetric | src/helpers.ts:22-25 | the comparison is symmetric |
| Helpers.NominalSelector | src/helpers.ts:37-39 | selects a row if and only if its nominal value is `val` |
| Helpers.ExactSelector | src/helpers.ts:42-44 | selects a row if and only if it has an exact value equal to `val` |
| Helpers.NotNullSelector | src/helpers.ts:47-52 | with a key, selects the settings whose field is present; without one, selects all |
| Magnitudes.Round | src/equations.ts:5 | the result is the integer within one half of `x`, halves rounded up |
| Equations.CalcExactFNumber | src/equations.ts:37-40 | its square is the exact shutter speed of the same stop; it is 1 at stop 0 |
| Equations.CalcExactShutterSpeed | src/equations.ts:43-46 | its log2 is the stop |
| Equations.ExactStopRatios | src/equations.ts:37-46 | one stop up doubles the shutter speed and multiplies the f-number by sqrt(2) |
| Equations.ExactValuesInjective | src/equations.ts:37-46 | two stops have the same exact value if and only if they are equal |
| Equations.IsListed | src/equations.ts:18 | true if and only if some listed exposure value equals `x` |
| Equations.CalcExposureValue | src/equations.ts:4-9 | never null without the range limit; a result is within one half of log2(f²/t); with the limit, a result is in `evs`, and null means the rounded value is not in `evs` |
| Equations.ExposureValueInStops | src/equations.ts:4-9 | f-number at stop `a`, shutter speed at stop `b`: `a - b`, or null when limited and `a - b` is not listed |
| Equations.CalcLightValue | src/equations.ts:12-20 | a result is in `evs` and equals the unlimited EV less the film speed's stops; null exactly when that value is not listed; the intermediate EV is not range-checked |
| Equations.LightValueInStops | src/equations.ts:12-20 | in stops: `a - b - k` for ISO 100·2^k when listed; null for other film speeds |
| Equations.LightValueIso200 | src/equations.ts:12-20 | ISO 200 gives one less than the exposure value |
| Equations.CalcShutterSpeed | src/equations.ts:30-34 | log2(f²/t) of the result is `ev` plus the film speed's stops |
| Equations.CalcFNumber | src/equations.ts:23-27 | the shutter speed computed back from the result is the given shutter speed |
| Equations.FNumberUndoesShutterSpeed | src/equations.ts:23-34 | the f-number computed from the computed shutter speed is the original f-number |
| Equations.ShutterSpeedInStops | src/equations.ts:30-34 | for the f-number at stop `a` it is the exact shutter speed at stop `a - ev - k` |
| Equations.FNumberInStops | src/equations.ts:23-27 | for the shutter speed at stop `b` it is the exact f-number at stop `ev + b + k` |
| Equations.ExposureValueOfComputedShutterSpeed | src/equations.ts:4-34 | at ISO 100, the exposure value of an f-number and the shutter speed computed for `ev` is `ev` |
| FNumbers.FNumberStops | src/constants/fNumber.ts:3-24 | 20 plain rows; row `i` is stop `i - 1`, so stops run -1 to 18, one apart |
| FNumbers.FNumberReferencePoints | src/constants/fNumber.ts:5-13 | stop 0 is f/1, f/2 is stop 2, f/16 is stop 8 |
| FNumbers.FNumberNominalsIncrease | src/constants/fNumber.ts:4-23 | nominal values increase strictly |
| FNumbers.FNumberNominalsDistinct | src/constants/fNumber.ts:4-23 | no nominal value occurs twice |
| ShutterSpeeds.ShutterSpeedStops | src/constants/shutterSpeed.ts:3-25 | 21 plain rows; row `i` is stop `i - 14`, so stops run -14 to 6, one apart |
| ShutterSpeeds.ShutterSpeedReferencePoints | src/constants/shutterSpeed.ts:8-18 | 1/1000 is stop -10, 1/250 is stop -8, 1 second is stop 0 |
| ShutterSpeeds.ShutterSpeedNominalsDistinct | src/constants/shutterSpeed.ts:4-24 | no nominal value occurs twice |
| StopDomain.NominalAtStopFound | src/sunny16.ts:130 | the lookup by stop finds nothing exactly when no row has that stop; what it finds is the nominal value of a row with that stop |
| StopDomain.StopOfNominalFound | src/sunny16.ts:186-187 | the lookup by nominal value finds nothing exactly when the value is not in the table; what it finds is the stop of a row with that value |
| StopDomain.StopOfListedNominal | src/sunny16.ts:186-187 | with distinct nominal values, looking a row's nominal value up gives that row's stop |
| StopDomain.SettingsByFNumberOrder | src/sunny16.ts:141 | the f-numbers of the settings occur in f-number table order |
| StopDomain.SettingsByShutterSpeedOrder | src/sunny16.ts:170 | the shutter speeds of the settings occur in shutter-speed table order |
| StopDomain.SettingsByFNumberComplete | src/sunny16.ts:128-141 | every f-number whose matching stop has a shutter-speed row appears, paired with that shutter speed |
| StopDomain.SettingsByShutterSpeedComplete | src/sunny16.ts:157-170 | every shutter speed whose matching stop has an f-number row appears, paired with that f-number |
| Sunny16.BoundSelector | src/sunny16.ts:32-33 | a selector exactly when a bound is given; it selects the rows whose nominal value is the bound |
| Sunny16.SetBounds | src/sunny16.ts:31-36 | the result is no longer than the data; with neither bound it is the data |
| Sunny16.SetBoundsSlice | src/sunny16.ts:31-46 | on distinct nominal values, the data from the row named `min` (or the start) through the row named `max` (or the end) |
| Sunny16.SetNumberBoundsAsWritten | src/sunny16.ts:49-51 | as written, the bounds are never found: the whole data comes back |
| Sunny16.NumberBoundsIgnored | src/sunny16.ts:49-51 | bounds 200..200 on `[100, 200, 400]` give all three as written, and `[200]` corrected |
| Sunny16.SetNumberBounds | src/sunny16.ts:49-51 | corrected: no longer than the data; with neither bound it is the data |
| Sunny16.SetNumberBoundsSlice | src/sunny16.ts:49-51 | corrected: on distinct numbers, the data from `min` (or the start) through `max` (or the end) |
| Sunny16.GetFNumbers | src/sunny16.ts:79-82 | no longer than the f-number table |
| Sunny16.GetFNumbersSlice | src/sunny16.ts:79-82 | the f-number table from the row named `min` (or the start) through the row named `max` (or the end) |
| Sunny16.GetShutterSpeeds | src/sunny16.ts:89-92 | no longer than the shutter-speed table |
| Sunny16.GetShutterSpeedsSlice | src/sunny16.ts:89-92 | the shutter-speed table between the rows named by the bounds, edges when absent |
| Sunny16.GetNumbers | src/sunny16.ts:99-113 | `getFilmSpeeds` and `getExposureValues`, one accessor on a table of numbers: no longer than the table; with neither bound it is the table |
| Sunny16.GetNumbersSlice | src/sunny16.ts:99-113 | with the corrected bounds, the numbers of the table from `min` through `max` |
| Sunny16.FNumberRange | src/sunny16.ts:79-82 | bounds naming rows `i <= j` give rows `i` through `j` |
| Sunny16.FNumberRangeSingle | src/__tests__/sunny16.spec.ts:24 | `getFNumbers(16, 16)` is the single row f/16 at stop 8 |
| Sunny16.FNumberRangeDefault | src/sunny16.ts:122 | f/2 to f/16 is seven rows, stops 2 to 8 |
| Sunny16.FNumberRangeFull | src/__tests__/sunny16.spec.ts:13 | f/0.7 to f/520 is the whole table |
| Sunny16.ShutterSpeedRange | src/sunny16.ts:89-92 | bounds naming rows `i <= j` give rows `i` through `j` |
| Sunny16.ShutterSpeedRangeSingle | src/__tests__/sunny16.spec.ts:25 | `getShutterSpeeds('1/250', '1/250')` is the single row at stop -8 |
| Sunny16.ShutterSpeedRangeOneSecond | src/__tests__/sunny16.spec.ts:43 | `getShutterSpeeds('1', '1')` is the single row at stop 0 |
| Sunny16.ShutterSpeedRangeDefault | src/sunny16.ts:123 | 1/1000 to 1 second is eleven rows |
| Sunny16.ShutterSpeedRangeFull | src/__tests__/sunny16.spec.ts:14 | 1/16000 to 64 seconds is the whole table |
| Sunny16.DecorateExactFNumbers | src/sunny16.ts:58-62 | the same rows (stop and nominal value, in order), each with the exact f-number of its stop |
| Sunny16.DecorateExactShutterSpeeds | src/sunny16.ts:68-72 | the same rows, each with the exact shutter speed of its stop |
| Sunny16.FindNominal | src/sunny16.ts:186-187 | the nominal lookup finds a row exactly when the reference lookup finds a stop, and it finds that stop |
| Sunny16.FindExactShutterSpeed | src/sunny16.ts:130 | on a decorated table, the exact-value search finds the row at stop log2(t) when that is whole, and nothing otherwise |
| Sunny16.FindExactFNumber | src/sunny16.ts:159 | on a decorated table, the exact-value search finds the row at stop 2·log2(f) when that is whole, and nothing otherwise |
| Sunny16.MatchingShutterSpeed | src/sunny16.ts:128-135 | the f-number's nominal value, paired with the nominal value of a shutter-speed row whose exact value is the one the equation computes; paired with none only when no row has that exact value |
| Sunny16.MatchShutterSpeeds | src/sunny16.ts:128-141 | at most one setting per f-number; every setting has a shutter speed |
| Sunny16.MatchingShutterSpeedInStops | src/sunny16.ts:128-135 | for a decorated f-number row at stop `a`: its nominal value, paired with the shutter speed at stop `a - lightValue - k` when there is one; with none for a film speed that is not ISO 100·2^k |
| Sunny16.MatchShutterSpeedsInStops | src/sunny16.ts:128-141 | on decorated tables, equal to the reference settings by f-number with shift `lightValue + k`; none for a film speed that is not ISO 100·2^k |
| Sunny16.MatchingFNumber | src/sunny16.ts:157-164 | the shutter speed's nominal value, paired with the nominal value of an f-number row whose exact value is the one the equation computes; paired with none only when no row has that exact value |
| Sunny16.MatchFNumbers | src/sunny16.ts:157-170 | at most one setting per shutter speed; every setting has an f-number |
| Sunny16.MatchingFNumberInStops | src/sunny16.ts:157-164 | for a decorated shutter-speed row at stop `b`: the f-number at stop `b + lightValue + k` when there is one, paired with its nominal value; none for a film speed that is not ISO 100·2^k |
| Sunny16.MatchFNumbersInStops | src/sunny16.ts:157-170 | on decorated tables, equal to the reference settings by shutter speed with shift `lightValue + k`; none for a film speed that is not ISO 100·2^k |
| Sunny16.ConfigFNumbers | src/sunny16.ts:122 | the caller's f-numbers when given; otherwise the standard rows f/2 to f/16 (table rows 3 to 9) |
| Sunny16.ConfigShutterSpeeds | src/sunny16.ts:123 | the caller's shutter speeds when given; otherwise the standard rows 1/1000 to 1 second (table rows 4 to 14) |
| Sunny16.SettingsByFNumber | src/sunny16.ts:125-141 | at most one setting per given f-number, each with a shutter speed |
| Sunny16.SettingsByShutterSpeed | src/sunny16.ts:154-170 | at most one setting per given shutter speed, each with an f-number |
| Sunny16.SettingsByFNumberInStops | src/sunny16.ts:121-143 | for any given tables, the settings are the reference settings of those tables, in f-number order |
| Sunny16.SettingsByShutterSpeedInStops | src/sunny16.ts:150-172 | for any given tables, the settings are the reference settings of those tables, in shutter-speed order |
| Sunny16.ByFNumber | src/sunny16.ts:121-143 | echoes the light value and film speed; the settings come from the configured tables, or f/2..f/16 and 1/1000..1 |
| Sunny16.ByShutterSpeed | src/sunny16.ts:150-172 | echoes the light value and film speed; the settings come from the configured or default tables |
| Sunny16.ExactPair | src/sunny16.ts:186-189 | a pair of exact values only when both nominal values are found |
| Sunny16.ExactPairInStops | src/sunny16.ts:186-189 | on decorated tables, the exact values of the stops the nominal values name, or none |
| Sunny16.LookupExposureValue | src/sunny16.ts:186-191 | a result is a listed exposure value; null when either nominal value is missing |
| Sunny16.LookupExposureValueInStops | src/sunny16.ts:186-191 | on decorated tables, the difference of the two stops when listed, else null |
| Sunny16.LookupLightValue | src/sunny16.ts:206-211 | a result is listed; null when either nominal value is missing |
| Sunny16.LookupLightValueInStops | src/sunny16.ts:206-211 | on decorated tables, the difference of the stops less the film speed's stops when listed, else null |
| Sunny16.ValueFNumbers | src/sunny16.ts:180 | the caller's f-numbers when given; otherwise the whole standard table |
| Sunny16.ValueShutterSpeeds | src/sunny16.ts:181 | the caller's shutter speeds when given; otherwise the whole standard table |
| Sunny16.ExposureValueOfTables | src/sunny16.ts:183-191 | on any tables, after decoration, equal to the reference exposure value |
| Sunny16.LightValueOfTables | src/sunny16.ts:203-211 | on any tables, after decoration, equal to the reference light value |
| Sunny16.ExposureValue | src/sunny16.ts:179-192 | the reference exposure value of the configured tables or the whole standard tables; listed or null, never an error |
| Sunny16.LightValue | src/sunny16.ts:199-212 | the reference light value of the configured or whole standard tables; listed or null |
| Sunny16.SingleRowConfig | src/__tests__/sunny16.spec.ts:23-26 | the configuration bounded to f/16 alone and 1/250 alone holds the rows at stops 8 and -8 |
| Sunny16.ByFNumberExample | src/__tests__/sunny16.spec.ts:22-37 | at LV 15 and ISO 200 with f/16 and 1/250 only, `byFNumber` echoes LV 15 and ISO 200 and gives the single setting f/16 at 1/250 |
| Sunny16.ByShutterSpeedExample | src/__tests__/sunny16.spec.ts:63-79 | the same configuration gives the same single setting by shutter speed |
| Sunny16.OneSecondConfig | src/__tests__/sunny16.spec.ts:83-86 | the configuration bounded to f/16 alone and 1 second alone holds the rows at stops 8 and 0 |
| Sunny16.OneSecondOutOfRange | src/sunny16.ts:150-172 | with only f/16 and 1 second, LV 15 at ISO 200 needs the f-number at stop 16, which is absent, so there are no settings |
| Sunny16.OneSecondShift | src/sunny16.ts:157-170 | in stops, the same query gives no settings |
| Sunny16.OutOfRangeExample | src/__tests__/sunny16.spec.ts:82-89 | with f/16 and 1 second only, there are no settings |
| Sunny16.ExposureValueExample | src/__tests__/sunny16.spec.ts:106-109 | f/16 at 1/250 is EV 16 |
| Sunny16.LightValueExample | src/__tests__/sunny16.spec.ts:123-126 | f/16 at 1/250 and ISO 200 is LV 15 |
| Sunny16.StandardStopsExample | src/sunny16.ts:180-181 | in the whole standard tables, f/16 is stop 8 and 1/250 is stop -8 |
| Index.SpreadArgument | src/index.ts:27-28 | the argument a spread list supplies at a position, if the list is that long |
| Index.BoundedFNumbers | src/index.ts:77-82 | decorated, with the rows of `getFNumbers(min, max)` |
| Index.BoundedShutterSpeeds | src/index.ts:90-95 | decorated, with the rows of `getShutterSpeeds(min, max)` |
| Index.Sunny16.constructor | src/index.ts:26-29 | each field holds its standard table between the spread bounds, defaults filled in, decorated |
| Index.Sunny16.GetFNumbers | src/index.ts:31 | the object's f-numbers field, decorated when the object is valid |
| Index.Sunny16.GetShutterSpeeds | src/index.ts:32 | the object's shutter-speeds field, decorated when the object is valid |
| Index.Sunny16.SetFNumbers | src/index.ts:77-86 | the f-numbers become the standard table between the bounds (default 2 and 16), decorated, and are returned; the shutter speeds are unchanged |
| Index.Sunny16.SetShutterSpeeds | src/index.ts:90-99 | the shutter speeds become the standard table between the bounds (default 1/1000 and 1), decorated, and are returned; the f-numbers are unchanged |
| Index.Sunny16.ByFNumber | src/index.ts:102-121 | echoes `ev` and film speed; at most one setting per f-number of the object, and every setting has a shutter speed |
| Index.Sunny16.ByShutterSpeed | src/index.ts:124-143 | echoes `ev` and film speed; at most one setting per shutter speed of the object, and every setting has an f-number |
| Index.Sunny16.ByFNumberInStops | src/index.ts:102-121 | on a valid object, the reference settings by f-number of its own tables |
| Index.Sunny16.ByShutterSpeedInStops | src/index.ts:124-143 | on a valid object, the reference settings by shutter speed of its own tables |
| Index.Sunny16.ExposureValue | src/index.ts:146-156 | a listed value; null for a nominal value outside the object's tables |
| Index.Sunny16.LightValue | src/index.ts:159-169 | a listed value; null for a nominal value outside the object's tables |
| Index.Sunny16.ExposureValueInStops | src/index.ts:146-156 | on a valid object, the reference exposure value of its own tables |
| Index.Sunny16.LightValueInStops | src/index.ts:159-169 | on a valid object, the reference light value of its own tables |
| Index.DefaultFNumbers | src/index.ts:77 | the default bounds give f/2 to f/16, seven rows |
| Index.DefaultShutterSpeeds | src/index.ts:90 | the default bounds give 1/1000 to 1 second, eleven rows |
| LibData.NominalSelector | lib/data.js:29-31 | selects a pair if and only if position 1 is `val` |
| LibData.EntryNominalSelector | lib/data.js:29-31 | selects an entry if and only if position 1 is `val` |
| LibData.ExactSelector | lib/data.js:25-27 | selects an entry if and only if position 2 equals `val` |
| LibData.Clip | lib/data.js:37-49 | a collection that is not an array clips to `[]`; an array clips as the TypeScript `clip` with both predicates |
| LibData.SetBounds | lib/data.js:51-57 | no longer than the data |
| LibData.ExactFNumber | lib/data.js:59-62 | the exact f-number of the pair's stop |
| LibData.ExactShutterSpeed | lib/data.js:64-67 | the exact shutter speed of the pair's stop |
| LibData.WithExactFNumber | lib/data.js:71 | the pair's stop and nominal value, followed by the exact f-number of that stop |
| LibData.WithExactShutterSpeed | lib/data.js:76 | the pair's stop and nominal value, followed by the exact shutter speed of that stop |
| LibData.GetFNumbers | lib/data.js:69-72 | no longer than the table; every entry carries the exact value of its stop at position 2 |
| LibData.GetShutterSpeeds | lib/data.js:74-77 | no longer than the table; every entry carries `2 ** stop` at position 2 |
| LibData.BoundedFNumbersAgree | lib/data.js:51-72 | bounding pairs and appending exact values gives, as records, the TypeScript bounded and decorated rows |
| LibData.BoundedShutterSpeedsAgree | lib/data.js:51-77 | the same for shutter speeds |
| LibData.GetFNumbersAgree | lib/data.js:69-72 | read as records, the TypeScript `getFNumbers` between the same bounds (default 2 and 16), decorated |
| LibData.GetShutterSpeedsAgree | lib/data.js:74-77 | read as records, the TypeScript `getShutterSpeeds` between the same bounds (default 1/1000 and 1), decorated |
| LibEquations.CalculateExposureValue | lib/equations.js:15-18 | within one half of log2(f²/t); never null |
| LibEquations.CalculateLightValue | lib/equations.js:20-24 | the exposure value less log2(filmSpeed/100), with no range check |
| LibEquations.CalculateShutterSpeed | lib/equations.js:26-29 | log2(f²/t) of the result is `ev` plus the film speed's stops |
| LibEquations.CalculateFNumber | lib/equations.js:31-34 | twice the log2 of the result is `ev` plus log2 of the shutter speed plus the film speed's stops |
| LibEquations.EquationsAgree | lib/equations.js:15-34 | the exposure value is the unlimited TypeScript one; the shutter-speed and f-number equations equal the TypeScript ones |
| LibEquations.LightValueAgrees | lib/equations.js:20-24 | where the TypeScript light value is defined, the legacy one is the same number |
| LibEquations.ExposureValueInStops | lib/equations.js:15-18 | on exact entries, the f-number's stop less the shutter speed's |
| LibEquations.LightValueInStops | lib/equations.js:20-24 | on exact entries, the difference of the stops less the film speed's stops |
| LibEquations.ShutterSpeedFNumberInverse | lib/equations.js:26-34 | the shutter-speed and f-number equations undo each other, in both directions |
| LibIndex.GetCameraSettings | lib/index.js:17-19 | the query with the caller's tables, or the default-bounded legacy tables, bound ahead of the exposure value and film speed; DefaultSettingsAgree states what the defaults compute |
| LibIndex.MatchingShutterSpeed | lib/index.js:22-30 | the f-number entry's nominal value, paired with the nominal value of a shutter-speed entry whose exact value is the computed one; with none only when no entry has it |
| LibIndex.MatchingFNumber | lib/index.js:40-48 | the shutter-speed entry's nominal value, paired with the nominal value of an f-number entry whose exact value is the computed one; with none only when no entry has it |
| LibIndex.MatchingShutterSpeedAgrees | lib/index.js:22-31 | an f-number entry gets the setting its record gets in the TypeScript resolver |
| LibIndex.MatchingFNumberAgrees | lib/index.js:40-49 | a shutter-speed entry gets the setting its record gets in the TypeScript resolver |
| LibIndex.ByFNumber | lib/index.js:21-37 | echoes the exposure value and film speed; at most one setting per f-number, each with a shutter speed; the TypeScript settings of the same rows |
| LibIndex.ByShutterSpeed | lib/index.js:39-55 | echoes its inputs; at most one setting per shutter speed, each with an f-number; the TypeScript settings of the same rows |
| LibIndex.ByFNumberInStops | lib/index.js:21-37 | on exact entries, the reference settings by f-number, in f-number order |
| LibIndex.ByShutterSpeedInStops | lib/index.js:39-55 | on exact entries, the reference settings by shutter speed, in shutter-speed order |
| LibIndex.SettingsAgree | lib/index.js:21-55 | entries that are the decorated rows of two tables give the TypeScript settings of those tables |
| LibIndex.DefaultSettingsAgree | lib/index.js:17-19 | with the default tables bound ahead, both legacy queries answer as the TypeScript `byFNumber` and `byShutterSpeed` without a configuration |
| LibIndex.FindEntryNominal | lib/index.js:58-59 | the nominal lookup finds an entry exactly when the reference lookup finds a stop, and it finds that stop |
| LibIndex.ExposureValueIn | lib/index.js:57-61 | a `TypeError` exactly when a nominal value is missing; on exact tables, otherwise the difference of the stops |
| LibIndex.GetExposureValue | lib/index.js:57-61 | in the default tables: a `TypeError` exactly when the reference lookup misses either nominal value, and otherwise the difference of the two stops |
| LibIndex.GetLightValue | lib/index.js:63-67 | in the given or default tables: a `TypeError` exactly when a nominal value is missing; on exact tables, otherwise the difference of the stops less the film speed's stops, unchecked |
| LibIndex.DefaultFNumberStop | lib/data.js:69-72 | f/16 is stop 8 of the default legacy f-numbers |
| LibIndex.DefaultShutterSpeedStop | lib/data.js:74-77 | 1/250 is stop -8 of the default legacy shutter speeds |
| LibIndex.GetExposureValueExample | lib/index.js:57-61 | f/16 at 1/250 is exposure value 16 |

## Left out

- `src/validation.ts` is not part of this model. It holds runtime type checks (`isNaN`, `typeof`, `instanceof`) and an error class.
- `api.js` is a console demonstration, and `src/index.d.ts` and `src/types.d.ts` only declare types. None of them is modelled; the type declarations shape the datatypes.
- Floating point is not modelled. Numbers are exact powers of two, and `Math.round` rounds half up. The epsilon match (1e-7 in `src/helpers.ts`, 1e-5 in `lib/`) is taken as equality.
- The epsilon match is not modelled as the source computes it. A film speed within a small distance of ISO 100·2^k can still match in the source, mostly against the shortest shutter speeds. For example, legacy `byFNumber` on the default tables at exposure value 18 and film speed 101 computes 2^-10/1.01 for f/16. That value differs from the 1/1000 row's 2^-10 by less than 1e-5, so the source returns f/16 at 1/1000. The model gives no settings there (LibIndex.ByFNumberInStops). In `src/`, a 1/16000 row at ISO 100.1 is within 1e-7 in the same way.
- Helpers.CompareFloats keeps the epsilon only as a parameter. The resolvers use equality of magnitudes in its place.
- JavaScript truthiness is not modelled. A bound is present (`Some`) or absent (`None`). The source treats a bound of `0` or `''` as absent; the model treats it as a present bound. No standard table holds such a value.
- Helpers.NotNullSelector and the legacy `notNullSelector` (`!== null`) are one predicate on `Option`. Nominal values are never `0` or `''`, so truthiness and `!== null` agree on every setting the resolvers build.
- The film-speed and exposure-value tables (`src/constants/filmSpeed`, `src/constants/exposureValue`) are not part of this model. They are the parameters `filmSpeeds` and `evs`. Light values are integers in the model; the source's `indexOf` on a non-integer light value finds nothing, which the model gives as null.
- The root `constants/` files that `lib/data.js` loads are not part of this model. They are assumed to hold the same rows as `src/constants`, as `[stop, nominal]` pairs.
- The result objects name the driving value `lightValue` (src/sunny16.ts), `ev` (src/index.ts) and `exposureValue` (lib/index.js). The model calls all three `drivingValue`.
- `src/index.ts` imports `calculateExposureValue` and similar names from `src/equations.ts`, which exports `calcExposureValue` and similar. The model maps the names one to one.
- `exactFNumber` and `exactShutterSpeed` are defined twice, in `lib/data.js:59-67` and `lib/equations.js:5-13`. They are modelled once, as `LibData.ExactFNumber` and `LibData.ExactShutterSpeed`. The unused `compareFloats` of `lib/equations.js:3` is not modelled separately.
- The accessors `stopNumber`, `nominalValue` and `exactValue` are field selections on the row datatypes.
- The `Sunny16` constructor spreads its bound lists into the setters. A setter reads only its first two arguments, so any further elements of a list are ignored. The model takes the first two elements, where present.
- Sunny16.GetNumbers, the model of `getFilmSpeeds` and `getExposureValues`, uses the corrected `setNumberBounds` described under Findings. The code as written is Sunny16.SetNumberBoundsAsWritten.
- LibIndex.GetCameraSettings returns a closure. Its contract says which tables it binds; LibIndex.DefaultSettingsAgree states what the bound query computes with the default tables.
- The snapshot tests (src/__tests__/sunny16.spec.ts:50-59, 92-102, 111-119, 128-140) are not modelled, because their expected values are not part of the repository text.

## Findings

| source | as written | input that shows it | evidently intended | confidence | as-written member | corrected member |
|---|---|---|---|---|---|---|
| src/sunny16.ts:49-51 | `setNumberBounds` passes plain numbers to `nominalSelector`. That selector reads `o.nominal`, which a number does not have, so neither bound ever matches. `getFilmSpeeds(min, max)` and `getExposureValues(min, max)` therefore return the whole table whenever a bound is given. | `[100, 200, 400]` with bounds 200 and 200 gives `[100, 200, 400]` | select the numbers equal to the bounds, giving `[200]` | not executed | Sunny16.SetNumberBoundsAsWritten, Sunny16.NumberBoundsIgnored | Sunny16.SetNumberBounds |
