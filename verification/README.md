# filesurf: size formatting and startup decision

filesurf is a small file-sharing server: it serves a directory over HTTP or
HTTPS and accepts uploads. Almost all of it is I/O. This project models its
two pieces of pure logic and proves properties of them:

- `prettyPrintSize` turns a byte count (an int64) into text such as `512B`,
  `1.5KB` or `1024.0KB`. Below 1024 the count is printed as an integer.
  From 1024 on, the count is converted to float64 and divided by 1024 until
  the quotient is below 1024. The quotient is then printed with one decimal,
  followed by a unit letter from `KMGTPE` and `B`.
- The start of `main` checks the flags `-p`, `-d`, `-s`, `-cert` and `-key`
  against the filesystem. It then exits, serves plain HTTP, or serves HTTPS.
  For HTTPS it uses either the given certificate and key or the defaults
  `filesurf.pem` and `filesurf.key`, and it may first generate a fresh pair.

The model has three modules:

- `Decimal` (decimal.dfy): Go's `%d` rendering of an integer, and a parser
  that reads it back.
- `SizeFormat` (size_format.dfy): `prettyPrintSize`. `Float64Of` models the
  conversion `float64(s)` exactly: it rounds to 53 significant bits, to
  nearest, ties to even. Below 2^53 it is the identity. Every later float
  step divides or multiplies by a power of two. Those steps are exact, so
  `real` models them. `%.1f` rounds the exact quotient to one decimal place,
  ties to even (`RoundHalfEven`). `PrettyPrintSize` is the functional
  definition. `PrettyPrintSizeLoop`, `FormatScaledLoop` and `ExponentSearch`
  follow the Go loop step by step and are proved equal to it.
- `Startup` (startup.dfy): `Decide` maps the flags and the filesystem to an
  `Outcome`. The filesystem is a map from path to entry kind, and `os.Stat`
  succeeds exactly on the paths in the map. `ProvisionDefaults` models only
  what `generateKeyAndCert` does to the filesystem: it writes the certificate
  file, then the key file, and a certificate written before the key fails
  stays. `Start` composes the two: it exits, panics in generation, or
  reaches the listener, and gives the filesystem left behind.

Behaviour of the code that the model keeps on purpose:

- The unit is chosen from the unrounded quotient. So 1048575 bytes print as
  `1024.0KB`, not `1.0MB` (`BelowMebibyteExample`).
- A negative size takes the first branch and prints as e.g. `-5B`.
- From 2^53 on, `float64(s)` rounds. So 2^60 - 1 prints as `1.0EB`
  (`RoundedConversionExample`).
- Exact powers of 1024, from 1024 up to 2^60, print as `1.0` of their unit
  (`ExactPowerPrintsOne`; `KibibyteExample`, `MebibyteExample`,
  `GibibyteExample` spell out three of them). The only oddity is just below a
  power, as above.

## Model

| member | source | states |
|---|---|---|
| Decimal.IntToDecimal | filesurf.go:206 | `%d` output is a canonical decimal, with a leading '-' exactly for negative values and never "-0" |
| Decimal.NatToDecimal | filesurf.go:206 | the digits of a natural number are canonical (no leading zero), and the first digit is '0' only for zero |
| Decimal.NatToDecimalRoundTrip | filesurf.go:206 | reading back the digits of n gives n |
| Decimal.CanonicalRoundTrip | filesurf.go:206 | every canonical digit string is the rendering of its own value, so the rendering is a bijection onto canonical strings |
| Decimal.IntToDecimalRoundTrip | filesurf.go:206 | reading back the `%d` rendering of any integer gives the integer |
| SizeFormat.Excess | filesurf.go:210 | the number of low bits of s that do not fit into 53 significant bits: the least e with s < 2^(53+e) |
| SizeFormat.Float64Of | filesurf.go:210 | float64(s) is s itself below 2^53, and for a larger int64 it lies in [2^53, 2^63] |
| SizeFormat.Float64OfAccurate | filesurf.go:210 | from 2^53 on, float64(s) is within half a unit in the last place of s, a tie goes to the even multiple of the unit, and it has at most 53 significant bits |
| SizeFormat.Exponent | filesurf.go:209-213 | the exponent the loop reaches for f >= 1024 brackets f: 1024^(k+1) <= f < 1024^(k+2) |
| SizeFormat.ExponentUnique | filesurf.go:209-213 | no other exponent has that bracket |
| SizeFormat.ExponentInRange | filesurf.go:210-217 | for every float64 value of an int64 size the exponent is at most 5, so indexing "KMGTPE" never panics |
| SizeFormat.ExponentSearch | filesurf.go:209-213 | the loop as written, on exact float values, stops with the bracketing exponent and with div = 1024^(exp+1) |
| SizeFormat.RoundHalfEven | filesurf.go:215-216 | `%.1f` picks the nearest count of tenths, ties to even, and it is non-negative for a non-negative value |
| SizeFormat.RoundHalfEvenUnique | filesurf.go:215-216 | nearest-with-ties-to-even determines the count of tenths uniquely |
| SizeFormat.FormatTenths | filesurf.go:215-216 | a count of tenths prints as a canonical whole part, '.', and one digit, which read back give the count |
| SizeFormat.PrettyPrintSize | filesurf.go:203-219 | every result, for every int64 size, ends in 'B' |
| SizeFormat.FormatScaled | filesurf.go:209-218 | every result for a size of at least 1024 ends in 'B' |
| SizeFormat.PrettyPrintSizeLoop | filesurf.go:203-219 | prettyPrintSize as written, with its loop, computes PrettyPrintSize |
| SizeFormat.FormatScaledLoop | filesurf.go:209-218 | the loop branch as written, dividing float64(s) by the div it found, computes FormatScaled |
| SizeFormat.SmallSizeReadsBack | filesurf.go:204-207 | below 1024, negative sizes included, the text has no decimal point and its digits read back as the size |
| SizeFormat.ScaledShape | filesurf.go:215-218 | from 1024 on, the text is `<whole>.<digit><unit>B`, the only '.' before the last digit and the unit one of KMGTPE |
| SizeFormat.ScaledReadsBack | filesurf.go:209-218 | the unit printed is the one whose power of 1024 brackets the size; the printed number, read back in tenths t, satisfies abs(10·f − t·1024^(k+1)) <= 1024^(k+1)/2, and 10 <= t <= 10240 |
| SizeFormat.LargeSizeReadsBack | filesurf.go:209-218 | the shape and the read-back bound, stated for every int64 size of at least 1024 through float64(s) |
| SizeFormat.AtMostOnePoint | filesurf.go:203-219 | no result contains two decimal points |
| SizeFormat.SmallExamples | filesurf.go:204-207 | 0 prints as "0B", -5 as "-5B", 1023 as "1023B" |
| SizeFormat.KibibyteExample | filesurf.go:209-218 | 1024 prints as "1.0KB" |
| SizeFormat.HalfwayExample | filesurf.go:209-218 | 1536 prints as "1.5KB" |
| SizeFormat.BelowMebibyteExample | filesurf.go:209-218 | 1048575 prints as "1024.0KB", because the unit comes from the unrounded quotient |
| SizeFormat.MebibyteExample | filesurf.go:209-218 | 1048576 prints as "1.0MB" |
| SizeFormat.GibibyteExample | filesurf.go:209-218 | 1073741824 prints as "1.0GB" |
| SizeFormat.ExactPowerPrintsOne | filesurf.go:209-218 | each power 1024^(k+1) with k < 6, from 1024 to 2^60, is an int64 and prints as "1.0" followed by the k-th unit letter and 'B' |
| SizeFormat.PowerConvertsExactly | filesurf.go:210 | float64 of each power of 1024 up to 2^60 is that power itself |
| SizeFormat.Float64OfExample | filesurf.go:210 | 2^60 − 1 converts to 2^60 in float64 |
| SizeFormat.RoundedConversionExample | filesurf.go:210-218 | 2^60 − 1 rounds to 2^60 in float64 and prints as "1.0EB" |
| Startup.Decide | filesurf.go:36-69 | the flag checks end the process (`Exit`) exactly when the port is empty, the base directory is missing or not a directory, or -s is given with only one of -cert/-key; without -s it serves HTTP; every serve uses ":"+port and the base directory; an HTTPS outcome never has an empty certificate or key path; a failed generation can still end the process (see `Start`) |
| Startup.ExitReasons | filesurf.go:36-50 | the checks run in order, and the first that fails names the exit: empty port, then unreadable base path, then non-directory, then an incomplete -cert/-key pair |
| Startup.PlainIgnoresTlsFlags | filesurf.go:53 | without -s the outcome depends neither on -cert/-key nor on any path but the base directory |
| Startup.DefaultsGeneratedIffMissing | filesurf.go:56-66 | with -s and no paths, the defaults filesurf.pem / filesurf.key are used, and a new pair is generated exactly when one of them is missing |
| Startup.GivenPathsUsedUnchanged | filesurf.go:53-69 | with -s and both paths, HTTPS uses them unchanged and nothing is generated |
| Startup.DefaultFlagsServeHttp | filesurf.go:28-32 | the default flags serve "." over HTTP on ":8090" when "." is a directory |
| Startup.ProvisionDefaults | filesurf.go:128-140 | generation writes both default files as regular files and changes no other path; it fails exactly when a default path is a directory; the certificate fails first and then nothing is written; when only the key fails, the certificate already written stays and nothing else changes |
| Startup.RestartReusesDefaults | filesurf.go:56-66 | after a generation that wrote the defaults, a second start with the same flags serves the same way without generating again |
| Startup.RestartAfterKeyFailure | filesurf.go:56-66 | when generation panicked on the key file, the certificate it wrote makes a second start find both defaults and not regenerate; it chooses the HTTPS listener with filesurf.key still a directory, so loading the key fails there (filesurf.go:84, 90-91) |
| Startup.Start | filesurf.go:36-69 | the process reaches a listener exactly when the flag checks pass and any needed generation writes both files; it then listens on the outcome of `Decide`; an exit leaves the filesystem unchanged; a generation panic names a default path that is a directory; HTTPS with the defaults listens only when both default files exist, and nothing else changed |

## Left out

- `generateKeyAndCert` and `pemBlockForKey` (filesurf.go:97-150): the ECDSA P-256 key, the random serial, the clock, the X.509 encoding and the PEM encoding are library calls with side effects. Only the files written are modelled (`ProvisionDefaults`).
- Startup.ProvisionDefaults: file creation fails only when the path is a directory. Other `os.Create` failures (permissions, a missing parent directory) and panics from key generation or randomness are not modelled.
- `fileUploadHandler` and `createFile` (filesurf.go:153-200): HTTP, multipart parsing, writes to the filesystem and per-request concurrency. The path built by `filepath.Join` depends on library path cleaning, which is not part of this model.
- Logging, `flag.Parse`, `flag.Usage`, the `http.Handle` registrations and `ListenAndServe`/`ListenAndServeTLS` (filesurf.go:34, 72-92) are I/O. The outcome names which listener would start. A listener that fails after starting (filesurf.go:90-92) is not modelled.
- Startup.Decide: paths are map keys, compared as strings. Two spellings of the same file (`./filesurf.pem` and `filesurf.pem`) are different keys. Every `os.Stat` error is treated as "path not in the map". `os.Stat("")` always fails in Go, but the map may hold the key `""`; the model then accepts an empty base directory that the source rejects.
- Float behaviour beyond what `prettyPrintSize` can reach: a quotient below 1 or above 2^63 never occurs, so float underflow and overflow are not modelled.
