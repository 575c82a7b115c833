# Uptime formatter of the chatbot status server

This project models `formatUptime` from `server.js` of a small Express status
server for a chatbot. The `/status-data` endpoint reports the process uptime
twice: as a number of seconds and as a human-readable string such as
`"1d 2h 3m 4s"`. `formatUptime` builds that string. It splits the elapsed
seconds into days, hours, minutes and seconds by floor division and
subtraction, then renders the four numbers with their unit letters.

The model has three modules:

- `Options`: an optional value that works with `:-`.
- `Decimal`: how a template literal renders an integral JavaScript Number
  (an optional `-`, then the digits with no leading zero), and a parser that
  accepts exactly those numerals.
- `Uptime`:
  - `Parts`, the four fields.
  - `Decompose`, the decomposition of a whole number of seconds.
  - `DecomposeSteps`, the function's own statements run on the exact (real)
    value of its argument, with `Math.floor` as `.Floor` and `%` as
    JavaScript's truncating remainder (`RemainderOfMinute`).
  - `Template` and `Render`, the template literal and the four numerals
    interpolated into it.
  - `FormatUptime`, the whole function.
  - `ParseUptime`, a reader that inverts `Render`.

The argument is a `real`, not a whole number. The server passes
`process.uptime()`, which has a fraction. The model proves that the steps
discard the fraction. The function puts no sign condition on its argument.
The model imposes none either: in exact arithmetic a negative argument gives
negative days, and the other three fields still stay in range. JavaScript's
doubles can differ there (see "## Left out").

## Model

| member | source | states |
|---|---|---|
| `Uptime.Decompose` | server.js:13-18 | the days field is the whole seconds divided by 86400, rounded down; hours lie in 0..23, minutes and seconds in 0..59; days·86400 + hours·3600 + minutes·60 + seconds gives back the input |
| `Uptime.DecomposeOfTotalSeconds` | server.js:13-18 | conversely, any four fields in those ranges are exactly the decomposition of the seconds they stand for, so the decomposition is a bijection between whole seconds and in-range fields |
| `Uptime.FloorOfQuotient` | server.js:13 | `Math.floor(x / k)` for a positive whole divisor `k` depends only on the floor of `x`: it equals floor(x) divided by `k`, rounded down |
| `Uptime.Truncate` | server.js:18 | the quotient truncated toward zero: it lies within one below a non-negative quotient and within one above a negative one |
| `Uptime.RemainderOfMinute` | server.js:18 | JavaScript's `x % 60`, the remainder after truncating the quotient toward zero: it has the sign of `x`, lies strictly within 60 of zero, and `x` minus it is a whole multiple of 60 |
| `Uptime.DecomposeSteps` | server.js:13-18 | the function's own statements on an exact real argument give exactly the decomposition of the argument's floor: every `Math.floor`, and the final `%`, discard the fraction |
| `Uptime.Render` | server.js:19 | the four fields interpolated into the template read back, through the reader, as exactly those four fields |
| `Uptime.ParseUptimeOfTemplate` | server.js:19 | the reader recovers any four integers from their decimal numerals placed in the template `<d>d <h>h <m>m <s>s` |
| `Uptime.FormatUptime` | server.js:12-20 | the returned string is the rendering of the decomposition of the argument's floor, and reading it back gives exactly those four fields |
| `Uptime.RenderOfParseUptime` | server.js:19 | every string the reader accepts is exactly the rendering of the fields it returns, so the reader accepts nothing but the rendered format |
| `Uptime.FormatUptimeDeterminesFloor` | server.js:12-20 | two arguments give the same formatted uptime exactly when they have the same floor: the string shows every whole second and nothing of the fraction |
| `Uptime.FormatUptimeOfZero` | server.js:13-19 | an uptime of 0 formats as `"0d 0h 0m 0s"`: all four fields appear even when zero |
| `Decimal.NatToDecimal` | server.js:19 | a non-negative integer renders as at least one digit with no leading zero, and as "0" only for zero |
| `Decimal.IntToDecimal` | server.js:19 | an integer renders as a non-empty string of digits and `-`, starting with `-` exactly when the integer is negative |
| `Decimal.DecimalValueOfNatToDecimal` | server.js:19 | the rendered digits of a non-negative integer denote that integer |
| `Decimal.NatToDecimalOfDecimalValue` | server.js:19 | every canonical digit string is the rendering of the number it denotes |
| `Decimal.ParseIntOfIntToDecimal` | server.js:19 | reading back the rendering of any integer, negative ones included, gives that integer |
| `Decimal.IntToDecimalOfParseInt` | server.js:19 | any numeral the integer reader accepts is the rendering of the integer it reads |

## Left out

- Express wiring, static file serving, the `/` and `/status` HTML pages and `app.listen` (server.js:1-10, 22-59, 81-83): HTTP plumbing that only returns fixed markup.
- The `/status-data` handler (server.js:62-79): it calls `process.uptime`, `process.memoryUsage`, `os.type` and `os.hostname`, which are runtime and OS calls. It also formats with `toFixed` (floating point) and `toLocaleString` (locale-dependent). Only its call to `formatUptime` is modelled, with the uptime as a parameter.
- public/script.js and public/scripts/dashboard.js: browser code, meaning DOM updates, `fetch` polling, timers and live-channel handlers. Their one check, a non-empty text after trimming before a broadcast or forced logout is sent, runs against a server that is not part of this model.
- A log store, a session and role gate, a connection registry and an event fan-out bus: no code for them exists in the server, so none is modelled.
- FormatUptime: numbers are exact reals and unbounded integers, not IEEE-754 doubles. The model leaves out rounding in the divisions and subtractions. For negative arguments that rounding can push a field up to its bound: `formatUptime(-1e-20)` subtracts -86400 and gets exactly 86400, so JavaScript returns `"-1d 24h 0m 0s"` where the model gives `"-1d 23h 59m 59s"`. The server only passes `process.uptime()`, which is never negative. The model also leaves out NaN and infinite arguments, `-0`, and the exponent notation JavaScript uses when rendering numbers of 1e21 and above.
- RemainderOfMinute: models JavaScript's `%` only for the divisor 60, the only one formatUptime uses (server.js:18); a general divisor is not modelled.
