# Rango visit tracker, modelled in Dafny

The rango web application counts a visitor's visits in `rango/views.py`. The
`visitor_cookie_handler` function reads two cookies. One is a `visits` count, `"1"` when it is
missing. The other is a `last_visit` time, `str(datetime.now())` when it is missing. The
function drops the last seven characters of the time text (the `.ffffff` microseconds) and parses
the rest as `%Y-%m-%d %H:%M:%S`. It then writes two session entries:

- When at least one whole day has passed since that time, it writes the cookie's count plus one
  and the current time.
- Otherwise it writes a count of 1 and the cookie's time text, unchanged.

`get_server_side_cookie` looks a key up in the session and falls back to a default when the
stored value is missing or falsy. `index` and `about` run the handler and put the fresh session
`visits` into their template context.

The model is split into four modules:

- `Results` (results.dfy) holds the `Option` and `Result` wrappers. An `Err` result stands for
  the ValueError the Python code raises.
- `Numerals` (numerals.dfy) covers decimal digits, zero-padded fields, and `int()` applied to the
  count cookie.
- `Timestamps` (timestamps.dfy) covers naive date-times:
  - `str(datetime)` rendering;
  - `strptime` with the fixed format;
  - the `[:-7]` slice;
  - calendar ordinals and microsecond arithmetic;
  - `timedelta.days` as the difference rounded down to whole days.
- `Views` (views.dfy) covers:
  - session values with Python truthiness;
  - `get_server_side_cookie`;
  - `HandleVisit`, a pure function giving what the handler decides from the cookies and the clock;
  - a `Request` class whose `session` map the handler method `VisitorCookieHandler` updates in place;
  - `Index` and `About`;
  - the lemmas.

The wall clock is a parameter. It gives the readings of `datetime.now()` that one call may take,
in order: the default time text (line 25, evaluated on every call), the comparison (line 29), and
the stored time (line 31), which only the elapsed-day branch reads.

Three behaviours of the code worth noting:

- The new count is based on the `visits` **cookie**. The session's earlier `visits` entry is
  never read: `HandleVisit` does not take the session as an argument.
- A time cookie that does not parse raises ValueError, as does a count cookie that is not an
  integer; in both cases nothing is written (`HandleVisitFails`).
- The stored count is not always at least 1. Any negative count cookie read back a day later is
  stored plus one, so it stays below 1 (`NegativeCountCarriesOver`). The count is at least 1
  whenever the cookie count is not negative (`CountAtLeastOne`).

A behaviour of the code that the model exhibits: `str(datetime)` leaves out `.ffffff` when the
microseconds are 0. The 19-character text then loses its last seven characters, the slice
keeps only `YYYY-MM-DD H` and so cuts into the hour, so a first visit whose clock reading
falls on a whole second raises (`FirstVisitOnWholeSecondRaises`,
`Timestamps.ParseDroppedSuffixWholeSecond`).

## Model

| member | source | states |
|---|---|---|
| Views.GetServerSideCookie | rango/views.py:15-19 | the stored value when present and truthy; otherwise the default, even for a stored 0, "" or empty list |
| Views.Truthy | rango/views.py:17 | Python truthiness of a session value: None, False, 0, the empty text and the empty list are falsy, everything else truthy |
| Views.HandleVisit | rango/views.py:22-34 | the handler's decision as a value: the count and time text it records, or the ValueError raised by `int()` (line 23) or `strptime` (lines 26-27) before anything is written |
| Views.Decide | rango/views.py:26-34 | the decision once the count is read: parse the sliced time text, then count plus one with the stored reading when `timedelta.days` is positive, else count 1 with the cookie text |
| Views.Written | rango/views.py:31-36 | the session after the two writes: `last_visit` set to the time text, then `visits` set to the count |
| Views.VisitorCookieHandler | rango/views.py:22-36 | if the cookies parse, the new session is the old one with exactly `last_visit` and `visits` set to what `HandleVisit` decides; otherwise the error is returned and the session is unchanged |
| Views.WrittenEntries | rango/views.py:31-36 | recording a visit adds only the keys `visits` and `last_visit`, with the count as an int and the time as text; every other session entry keeps its value |
| Views.Index | rango/views.py:170-183 | the context holds the given categories and pages plus `visits` equal to the session's just-written count; an error from the handler propagates and leaves the session unchanged |
| Views.About | rango/views.py:185-198 | the context holds the fixed about message plus `visits` equal to the session's just-written count; an error from the handler propagates |
| Views.HandleVisitFails | rango/views.py:23-27 | the handler fails with a bad count exactly when the count text is not an integer literal; it fails with a bad time exactly when the count is fine and the sliced time text does not parse |
| Views.OneOrIncremented | rango/views.py:23-36 | on success the result is either count 1 with the cookie's time text unchanged, or the cookie count plus one with the current time; the stored time is never empty |
| Views.DecideOutcomes | rango/views.py:26-34 | once the time text parses, the decision is either count 1 with that text or the count plus one with the current time, and the text is at least 19 characters |
| Views.DayElapsedIncrements | rango/views.py:29-31 | at least 86 400 000 000 microseconds since the parsed time gives the count plus one and `str()` of the current reading |
| Views.WithinDayResets | rango/views.py:29-34 | fewer microseconds than a whole day since the parsed time, including a time in the future, gives count 1 and the cookie text unchanged |
| Views.NextDayRevisit | rango/views.py:25-31 | a cookie holding `str()` of a time, read on the next calendar day at the same time or later, gives the cookie count plus one and the current time |
| Views.SameDayRevisit | rango/views.py:25-34 | a cookie holding `str()` of a time, read on the same calendar day or an earlier one, gives count 1 and that text unchanged |
| Views.FirstVisit | rango/views.py:23-34 | with no time cookie, a non-whole-second first reading and a comparison reading less than a day later, the result is count 1 and `str()` of the first reading |
| Views.FirstVisitOnWholeSecondRaises | rango/views.py:25-27 | with no time cookie and a first reading with zero microseconds, the handler raises a bad-time error |
| Views.CountAtLeastOne | rango/views.py:23-36 | the stored count is at least 1 whenever the count cookie is not negative |
| Views.NegativeCountCarriesOver | rango/views.py:23-31 | any negative count cookie `c`, with its time cookie read back a day later, stores `c + 1`, which is below 1 |
| Views.LookupAfterVisit | rango/views.py:15-36 | after a visit is recorded, `get_server_side_cookie` returns the stored time text, and the stored count unless that count is 0 |
| Numerals.ParseInt | rango/views.py:23 | `int()` of the cookie text succeeds exactly on an optional sign followed by one or more ASCII digits |
| Numerals.ParseShowInt | rango/views.py:23 | `int(str(i)) == i` for every integer |
| Numerals.ParseIntRejects | rango/views.py:23 | the empty text, a lone sign, and text ending in a non-digit are refused |
| Numerals.DigitsValuePadded | rango/views.py:26-27 | reading a zero-padded digit field gives back the number written |
| Numerals.PaddedDigitsValue | rango/views.py:26-27 | a digit field is the zero-padded rendering of its value, so no other spelling reads the same |
| Timestamps.Format | rango/views.py:25 | `str(datetime)` has 26 characters, or 19 when the microseconds are 0 |
| Timestamps.DropSuffix | rango/views.py:26 | `s[:-7]` is a prefix of `s` that is 7 characters shorter, or empty when `s` is shorter than 7 |
| Timestamps.Parse | rango/views.py:26-27 | whatever `strptime` returns is a real date-time with zero microseconds |
| Timestamps.ParseFormat | rango/views.py:26-27 | parsing the rendering of a whole-second date-time returns that date-time |
| Timestamps.FormatParse | rango/views.py:26-27 | any text that parses is exactly the rendering of the parsed date-time |
| Timestamps.ParseDroppedSuffix | rango/views.py:25-27 | slicing and parsing `str(dt)` gives `dt` to the whole second when its microseconds are not 0 |
| Timestamps.ParseDroppedSuffixWholeSecond | rango/views.py:25-27 | slicing and parsing `str(dt)` fails when its microseconds are 0 |
| Timestamps.ElapsedDays | rango/views.py:29 | `(later - earlier).days`: the microsecond difference of the two instants divided by one day, rounded toward minus infinity |
| Timestamps.ElapsedDaysFloor | rango/views.py:29 | `timedelta.days` is the difference rounded down to whole days; it is positive exactly when the difference is at least one day |
| Timestamps.MicrosInDay | rango/views.py:29 | a date-time's microsecond count falls within its calendar day |
| Timestamps.MicrosWholeSecond | rango/views.py:26-29 | dropping the microseconds moves a date-time back by exactly that many microseconds |
| Timestamps.NextDayOneDayLater | rango/views.py:29 | the next calendar day, at the same time, is one ordinal day and exactly 24 hours later, across month and year ends |
| Timestamps.DaysInYear | rango/views.py:29 | the twelve months of a year add up to 366 days in a leap year and 365 otherwise |
| Timestamps.DaysBeforeYearClosedForm | rango/views.py:29 | the year-by-year day count before a year equals the Gregorian closed form 365·y + y/4 − y/100 + y/400 |

## Left out

- Timestamps.Parse: accepts only the zero-padded, fixed-width form that `str(datetime)` writes. Python's `strptime` also accepts single-digit month, day, hour, minute and second fields, a space before a single-digit day, any run of whitespace between date and time, and non-ASCII decimal digits. These are not modelled.
- Numerals.ParseInt: `int()` also accepts surrounding whitespace, underscores between digits and non-ASCII decimal digits. These are not modelled.
- Views.Index: `Category.objects.order_by('-likes')[:5]` and `Page.objects.order_by('-views')[:5]` are database queries. Their results are parameters, and the `render` call is not modelled. The context is returned instead.
- Views.About: the `render` call is not modelled. The context is returned instead.
- `datetime.now()` is not modelled. Its readings are parameters, and nothing forces them to be in increasing order.
- Session persistence, cookie emission and the conversion of a raised ValueError into an HTTP error response belong to the web framework. They are not modelled.
- Session values are limited to None, booleans, ints, text and lists. Other Python values are not modelled.
- `user_login`, `register`, `user_logout` and `restricted` only delegate to the framework's authentication, forms and responses. They are not modelled.
- `add_page`, `add_category` and `show_category` are database lookups, form validation and template rendering. They are not modelled.
- rango/admin.py registers models with the admin site and holds no logic. It is not part of this model.
