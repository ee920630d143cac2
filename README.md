# HTTP GET profiler — a Dafny model

The profiler is a small command-line tool. Given a URL, it issues HTTP/1.1 GET requests over a plain socket on port 80.
- **Single-shot mode:** it prints the body of one response, or `status <code>` when the code is not 200.
- **Profiling mode:** it issues `--profile <n>` requests in a row. Then it reports:
  - the fastest, slowest, median and mean elapsed time;
  - the share of 200 responses and the list of other codes;
  - the smallest and largest response size.

The model covers the sequential logic of the two source files.

- `cpp_string.dfy` (module `CppString`) gives the exact behaviour of the standard-library calls the code relies on:
  - `std::string::find`, whose `npos` result is stored in an `int` as -1;
  - `std::string::substr`, which throws `out_of_range` past the end and reads a negative count as `npos`;
  - `std::stoi`, with white space, sign, digit run and the `int` range;
  - `std::to_string`.
- `sorting.dfy` (module `Sorting`) states what `std::sort` leaves in the vector: the ascending permutation of its input, which is unique.
- `get.dfy` (module `Get`) models get.cpp:
  - `parseHost` and `parsePath` as methods with the source's backward `while` scans. Each is proved against a declarative function (`HostOf`, `PathOf`) built on "the rightmost delimiter" (`LastIndexIn`).
  - `constructMessage`, an exact concatenation.
  - The bounded `received`/`total` read loop, as a method over the sequence of values the successive `read` calls return.
  - `get` itself. The socket, DNS, connect and write outcomes are a `Network` value, and the elapsed time is a parameter.
- `profiler.dfy` (module `Profiler`) models main.cpp:
  - `parseResponseContent` and `parseResponseStatus`, including their separator-missing and token-missing paths;
  - the mode dispatch of `main`;
  - the profiling loop, as a method over the results of the successive `get` calls;
  - the statistics computed after the loop.

How failures are modelled:
- `error()` prints a diagnostic and calls `exit(0)`. The model records it as an `Exit(0, Diagnostic(..))` outcome.
- An exception nobody catches (`out_of_range`, `invalid_argument`) becomes a `Terminated(..)` outcome.

The imperative parts are proved against specification functions.
- `ParseHost` and `ParsePath` are proved against `HostOf` and `PathOf`, `Receive` against `ReadOutcome`, and `CollectResponses` against `TallyUpTo`.
- `SummarizeTimes` and `ProfileRequests` are proved against `SummaryOf` and `ProfileOf`.
- The properties the program promises are lemmas about those functions.

## Model

| member | source | states |
|---|---|---|
| CppString.Substr | get.cpp:28-30 | substr throws out_of_range exactly when the start is negative (converted to size_t) or past the end; otherwise it gives at most count characters from the start, or the whole tail for a negative count (npos) |
| CppString.SubstrFrom | main.cpp:19 | substr(pos) is the tail from pos, and out_of_range when pos is outside 0..length |
| CppString.FindFrom | main.cpp:18 | find from a position: the first index at or after it where the pattern occurs, or -1 when there is none |
| CppString.Find | main.cpp:26 | find returns the first occurrence of the pattern, or -1 (npos stored in an int) when there is none |
| CppString.FindAfterHead | main.cpp:18 | a pattern whose first character is absent from a head is first found right after it |
| CppString.FindIsFirst | main.cpp:26 | an occurrence with none before it is exactly what find returns |
| CppString.DigitRun | main.cpp:27 | the leading digits stoi consumes: a prefix of digits followed by a non-digit or the end |
| CppString.SkipSpaces | main.cpp:27 | the leading white space stoi skips: a suffix of the input that does not start with white space, and every character skipped before it is white space |
| CppString.StoiSkipsSpace | main.cpp:27 | stoi reads past one leading white-space character |
| CppString.Stoi | main.cpp:27 | stoi yields only values in the int range |
| CppString.StoiOfThreeDigits | main.cpp:27 | stoi of three decimal digits is their value, which lies in 0..999 |
| CppString.StoiOfToString | main.cpp:122 | a code printed with to_string reads back unchanged through stoi |
| CppString.StoiOfDigits | main.cpp:27 | stoi reads a digit string within the int range whole |
| CppString.StoiOfNegatedDigits | main.cpp:27 | stoi reads '-' and a digit string as the negated value |
| CppString.NatToString | main.cpp:122 | to_string of a non-negative value: at least one character, all decimal digits |
| CppString.ToString | main.cpp:122 | to_string: a leading '-' exactly for a negative value, then decimal digits only |
| CppString.DecimalValueOfNatToString | main.cpp:122 | the decimal text to_string prints denotes the number printed |
| CppString.ToStringHasNoSpace | main.cpp:122 | a printed code never contains a space, so the separating spaces in nonSuccessCodes are unambiguous |
| CppString.ThreeDigitCode | main.cpp:122 | a code in 100..999 prints as exactly three digits |
| Sorting.Insert | main.cpp:129 | inserting into an ascending sequence keeps it ascending and adds exactly that element |
| Sorting.SortAscending | main.cpp:129 | the vector after std::sort is ascending and a permutation of the times as issued |
| Sorting.SortedPermutationsEqual | main.cpp:129 | two ascending permutations of the same elements are equal, so whatever algorithm std::sort uses, its result is SortAscending of its input |
| Sorting.SortedBounds | main.cpp:130-131 | in an ascending sequence the first element is the least and the last the largest |
| Get.LastIndexIn | get.cpp:33-40 | the index of the rightmost character in the stop set, with none of them after it, or -1 |
| Get.LastIndexInIs | get.cpp:33-40 | the only index where a backward scan can stop is the rightmost stop character |
| Get.SchemeOf | get.cpp:23-24 | the removed scheme is a prefix of the URL |
| Get.StripScheme | get.cpp:26-30 | the URL is the scheme followed by the stripped rest |
| Get.StripSchemeCases | get.cpp:23-30 | exactly one leading case-sensitive "http://" (7 characters) is removed, else one "https://" (8), else the URL is kept unchanged |
| Get.HostOf | get.cpp:26-41 | the host is always a prefix of the scheme-stripped URL |
| Get.ParseHost | get.cpp:20-42 | the backward scan with its early return on '.' and its break on '/' or ':' computes HostOf |
| Get.HostWholeWhenDotIsLast | get.cpp:33-36 | a '.' to the right of every '/' and ':' returns the whole stripped URL |
| Get.HostWholeWithoutDelimiters | get.cpp:41 | with none of '.', '/', ':' the whole stripped URL is the host, because substr(0, -1) means to the end |
| Get.HostBeforeDelimiter | get.cpp:37-41 | otherwise the host is the prefix strictly before the rightmost '/' or ':' |
| Get.HostOfPathUrl | get.cpp:20-42 | "http://example.com/path" gives "example.com" |
| Get.HostOfHttpsUrl | get.cpp:20-42 | "https://example.com" gives "example.com" |
| Get.HostOfPortUrl | get.cpp:20-42 | "example.com:8080/x" gives "example.com:8080" |
| Get.NoSchemeUnlessH | get.cpp:23-26 | a URL not starting with 'h' has no scheme removed |
| Get.PathOf | get.cpp:44-55 | a path returned by parsePath is at least two characters, starts with '/' and ends with the appended space |
| Get.ParsePath | get.cpp:44-55 | the backward scan with its early "/ " on '.' and its break on '/' computes PathOf, including the out_of_range throw when neither occurs |
| Get.PathShape | get.cpp:46-54 | parsePath throws exactly when the URL has neither '.' nor '/'; otherwise the path starts with '/', ends with the appended space and contains no '.' |
| Get.PathWhenDotIsLast | get.cpp:48-49 | a '.' to the right of every '/' gives "/ " |
| Get.PathAfterSlash | get.cpp:50-54 | otherwise the path is the text from the rightmost '/' plus a space |
| Get.PathExamples | get.cpp:44-55 | "http://example.com/a/b" gives "/b ", "http://example.com" gives "/ ", and "localhost" throws |
| Get.ConstructMessage | get.cpp:57-63 | the request has length path + host + 43, starts with "GET " and ends with the blank line "\r\n\r\n" |
| Get.MessageFields | get.cpp:57-63 | the path, the protocol and Host prefix, the host and the Connection trailer sit at fixed offsets of the request |
| Get.RequestLine | get.cpp:59-62 | for a target without '\r' and parsePath's trailing space, the first CRLF of the request ends the line "GET <target> HTTP/1.1", and the Host header starts right after it |
| Get.MessageAsLines | get.cpp:59-62 | the request is the request line, CRLF, then the header lines |
| Get.LineHasNoCR | get.cpp:59 | a request line built from a target without '\r' holds no '\r' |
| Get.ReturnValue | get.cpp:112-113 | read returns a positive count exactly for a non-empty chunk, and then its length |
| Get.Collect | get.cpp:111-117 | the stored bytes never exceed the free space |
| Get.ReadOutcome | get.cpp:118-119 | a result returned by the read phase is always shorter than total = 131071 |
| Get.Receive | get.cpp:107-119 | the read loop, with received kept in 0..total, stores the chunks up to the first non-positive read or a full buffer, and reports the fatal error exactly when received reaches total |
| Get.StopsAtNonPositive | get.cpp:113-114 | the loop stops at the first non-positive read: what follows it is never stored |
| Get.ShortResponseComesBack | get.cpp:111-117 | chunks that together fall short of the space, followed by a close or an error, are stored whole |
| Get.FillingChunks | get.cpp:111-117 | chunks that exactly fill the space are all stored, whatever would come next |
| Get.ExactFillIsFatal | get.cpp:118-119 | a response that fills all 131071 usable bytes is the fatal "not enough space" outcome, never a truncated result |
| Get.ShortResponseReturned | get.cpp:107-119 | a response shorter than that is returned in full |
| Get.Get | get.cpp:65-132 | each fatal step (socket, host lookup, connect, write, full buffer) gives its fatal error, in source order; parsePath's throw comes before the lookup; otherwise the exchange is the text read and the elapsed time, and the request sent is constructMessage(parseHost, parsePath) |
| Profiler.ParseResponseContent | main.cpp:15-22 | with a separator, the response is the text before its first "\r\n\r\n", the separator, then the content; without one, the content is the response minus its first 3 characters, and out_of_range when it is shorter than 3 |
| Profiler.NoSeparatorBefore | main.cpp:18 | a head without '\r' puts the first separator right after it |
| Profiler.NoSeparatorWithoutCR | main.cpp:18-19 | text without '\r' has no separator, so the content is the text minus 3 characters, or out_of_range |
| Profiler.ContentAfterHeaders | main.cpp:15-22 | headers without '\r', the separator, then a body: the content is exactly the body |
| Profiler.ContentExample | main.cpp:15-22 | "HTTP/1.1 200 OK\r\n\r\nHELLO" gives "HELLO" |
| Profiler.ContentWithoutSeparatorExample | main.cpp:18-19 | "HTTP/1.1 200 OK" gives "P/1.1 200 OK", and "ab" throws out_of_range |
| Profiler.ParseResponseStatus | main.cpp:24-28 | a status read from the response lies in the int range (its two branches are stated by StatusOfDigits and StatusWithoutToken) |
| Profiler.StatusWithoutToken | main.cpp:26-27 | without "HTTP/1.1 " the start is npos + 9, that is 8: out_of_range for a response shorter than 8, invalid_argument for exactly 8, otherwise stoi of the characters at 8..10 |
| Profiler.StatusOfOlderVersion | main.cpp:26-27 | "HTTP/1.0 200 OK" has no "HTTP/1.1 ", so " 20" is read and the status is 20 |
| Profiler.OlderVersionHasNoToken | main.cpp:26 | a response starting "HTTP/1.0 " holds no "HTTP/1.1 " |
| Profiler.TwoDigits | main.cpp:27 | "20" denotes 20 |
| Profiler.StatusOfDigits | main.cpp:26-27 | three digits right after the first "HTTP/1.1 " are read as their value, in 0..999 |
| Profiler.StatusLineRoundTrip | main.cpp:24-28 | a response starting with "HTTP/1.1 " and a code in 100..999 gives that code back |
| Profiler.StatusExample | main.cpp:24-28 | "HTTP/1.1 404 Not Found\r\n" gives 404 |
| Profiler.ModeOf | main.cpp:66-99 | --help wins over everything; otherwise a missing URL; otherwise single-shot without --profile; otherwise a non-positive count; otherwise profiling with that URL and the positive count |
| Profiler.FailureOutcome | get.cpp:15-18 | error() exits with status 0 after its diagnostic; an exception terminates the process |
| Profiler.SingleShotOutcome | main.cpp:84-94 | a failed get ends as that failure, a throwing status parse terminates the process, and any printed output exits with 1 and ends with two newlines |
| Profiler.RequestsOnlyWhenValid | main.cpp:66-99 | requests are issued exactly when there is no --help, a URL is given, and the count, if given, is positive; a profiling run issues exactly that many |
| Profiler.SingleShotPrints | main.cpp:84-94 | in single-shot mode a well-formed response prints its body on 200, else "status <code>", followed by two newlines, and exits with 1 |
| Profiler.StatusLineHasNoCR | main.cpp:88 | a status line built from a code and a reason without '\r' holds no '\r' |
| Profiler.TimesOf | main.cpp:113-114 | the times vector before sorting: one entry per request, in issue order |
| Profiler.StatusOf | main.cpp:102-117 | a request yields a status exactly when get returned and parseResponseStatus did not throw |
| Profiler.StatusesUpTo | main.cpp:101-126 | without a failure there is one code per request issued |
| Profiler.Statuses | main.cpp:101-126 | without a failure there is one code per request |
| Profiler.StatusesAreCodes | main.cpp:117 | without a failure every response was received, and its parsed status is the code recorded at its position |
| Profiler.CodesUpTo | main.cpp:117 | the code recorded for request k is the status of response k |
| Profiler.FirstFailureStands | main.cpp:101-126 | once a request fails, the requests after it change nothing |
| Profiler.CountSucceeded | main.cpp:118-120 | succeeded never exceeds the number of requests |
| Profiler.NonSuccess | main.cpp:121-122 | defines the recorded codes as the non-200 ones kept in request order; its contract states that every recorded code is non-200, and SucceededPlusFailed and TallyUpToMeaning tie it to the loop |
| Profiler.CodesText | main.cpp:122 | nonSuccessCodes is empty exactly when no code was recorded, and otherwise ends with a space |
| Profiler.SucceededPlusFailed | main.cpp:117-125 | succeeded plus the number of recorded codes equals the number of requests |
| Profiler.CountCharConcat | main.cpp:122 | counting a character over a concatenation adds the two counts |
| Profiler.NoSpaceCount | main.cpp:122 | text without a space counts no spaces |
| Profiler.CodesTextSpaces | main.cpp:122 | nonSuccessCodes holds exactly one space per recorded code |
| Profiler.CodesExample | main.cpp:117-125 | codes 200, 200, 404, 200, 500 count 3 successes and record 404 then 500 |
| Profiler.CodesTextExample | main.cpp:122 | recording 404 and 500 gives the text "404 500 " |
| Profiler.Halve | main.cpp:132 | C++ division by two truncates toward zero: the remainder x - 2h is 0 or 1 for x >= 0 and 0 or -1 for x < 0 |
| Profiler.MedianAsWritten | main.cpp:132 | defines the median as the middle element for odd n, else the halved sum of the elements at n/2 and n/2+1; its contract states that times.at throws out_of_range exactly for n = 0 and n = 2, and MedianWithinBounds and MedianAgainstConventional state what the value is |
| Profiler.HalveBetween | main.cpp:132 | half the sum of two values in a range stays in that range |
| Profiler.HalveMonotone | main.cpp:132 | truncating halving is monotone |
| Profiler.MedianWithinBounds | main.cpp:130-132 | whenever the median is defined it lies between the fastest and the slowest time |
| Profiler.MedianAgainstConventional | main.cpp:132 | for odd n the two medians agree; for even n main's median is never below the usual one |
| Profiler.MedianExamples | main.cpp:132 | [10,20,30,40,50,60] gives 45 where the usual median is 35, [10,20,30,40] gives 35, [10,20,30] gives 20, and [10,20] throws |
| Profiler.Sum | main.cpp:133 | the accumulated total of non-negative times is non-negative |
| Profiler.SumConcat | main.cpp:133 | the sum of a concatenation is the sum of the parts |
| Profiler.SumPermutation | main.cpp:129-133 | reordering does not change the sum, so accumulating the sorted times gives the total of the times as issued |
| Profiler.TallyGrow | main.cpp:117-125 | one more code either adds one success or appends its text and a space |
| Profiler.SortedTimes | main.cpp:129-133 | after the sort every time as issued lies between the fastest and the slowest, so does the median, and the sum is unchanged |
| Profiler.TallyUpTo | main.cpp:101-126 | after n requests the times vector holds n entries |
| Profiler.TallyUpToMeaning | main.cpp:80-126 | the loop fails exactly when some request fails, with the first failure. Otherwise smallest and largest bound every size and are sizes of some response (INT_MAX and 0 before any), succeeded counts the 200 codes, nonSuccessCodes lists the others in order, and times holds each elapsed time in issue order |
| Profiler.Record | main.cpp:106-125 | one response: the smallest size does not grow and is the old one or this one, the largest likewise, succeeded grows by one for 200 and is unchanged otherwise, nonSuccessCodes is extended (never shortened) and changes exactly for another code, and the time is appended; RecordKeepsTallies makes the new counters exact |
| Profiler.RecordKeepsTallies | main.cpp:106-125 | recording one more response keeps every one of those facts |
| Profiler.RecordSizes | main.cpp:106-110 | updating the smallest and largest size keeps them exact bounds that some response attains |
| Profiler.TallyStops | main.cpp:101-126 | a failed request ends the loop: the requests after it are never issued |
| Profiler.TallyFails | main.cpp:102-117 | a request that fails ends the loop with its failure |
| Profiler.RecordResponse | main.cpp:106-125 | the bookkeeping of one response (sizes, time, success count or recorded code) is Record |
| Profiler.CollectResponses | main.cpp:101-126 | the loop computes TallyUpTo over all requests |
| Profiler.SummaryOfTally | main.cpp:129-144 | a summary that keeps the tally's counts and summarizes its times summarizes every request |
| Profiler.SummaryOf | main.cpp:129-133 | the statistics throw out_of_range exactly when there are 0 or 2 times |
| Profiler.SummaryOfMeaning | main.cpp:129-133 | the statistics throw out_of_range exactly when there are 0 or 2 times. Otherwise the times are sorted, the fastest and slowest are the extremes, the median lies between them, the total is unchanged, and the counts are kept |
| Profiler.SummarizeTimes | main.cpp:129-133 | sorting and indexing after the loop compute SummaryOf |
| Profiler.ProfileOf | main.cpp:101-133 | profiling succeeds exactly when the loop does and there are neither 0 nor 2 requests; a loop failure is passed on; a summary holds one time per request |
| Profiler.ProfileRequests | main.cpp:101-133 | profiling mode computes ProfileOf |
| Profiler.ProfileFails | main.cpp:101-133 | profiling fails with the first failed request; otherwise it throws out_of_range exactly when there are 0 or 2 requests |
| Profiler.ProfileSummarizes | main.cpp:101-133 | a completed profile summarizes every request: sizes, codes and the sorted times with their statistics |
| Profiler.Run | main.cpp:57-147 | the dispatch: --help exits 1 with usage, a missing URL exits 0, single-shot mode prints as above, a non-positive count exits 0; profiling mode exits with the failure of the first failed request, terminates with out_of_range for 2 requests, and otherwise exits 1 with a report that summarizes the requests |

## Left out

- Get.FitsIn: `Receive` and `Get` assume that `read` never returns more bytes than it was asked for, as read(2) promises. A reply sequence that breaks this is not something the environment can produce.
- Sockets, `gethostbyname`, `connect`, `write`, `read` and `close` are the `Network` value: whether each step succeeds, and what the successive reads return. A reply list that runs out stands for a closed connection.
- The write loop passes `total - sent` (131071) bytes from the message regardless of its length, an over-read. Writing is modelled by its outcome alone (success or a negative count).
- `std::string res(response)` stops at the first NUL byte of the buffer. The model returns the stored bytes as they are.
- The clock: the elapsed milliseconds of each call of `get` are an input.
- `getopt_long` and `atoi` (main.cpp:30-54): the flags after parsing are the `Invocation` input.
- `meanTime` and the success percentage are double-precision floating point. The model keeps their integer ingredients instead: the `Sum` of the times, the count of requests and `succeeded`.
- Console output is reduced to values:
  - The profiling report (main.cpp:136-144) and the ">>>> failed" line are not printed; the result is the `Summary` value.
  - The blank line `main` prints before anything else, in every mode (main.cpp:59), is not part of any outcome; single-shot `Printed` text starts after it.
  - The usage text (main.cpp:67-69) is the tag `Usage`, the two error messages (main.cpp:74, main.cpp:97) are `UrlMissing` and `CountInvalid`, and the message `perror` prints in `error()` (get.cpp:16) is `Diagnostic(reason)`.
- Sorting.SortAscending: `std::sort` reorders the vector in place. The model takes the sorted sequence as a value, and `SortedPermutationsEqual` shows this value is the only possible result.
- Profiler.Sum: `std::accumulate` into an `int` can overflow on large times. The model's sum is unbounded.
- Profiler.MedianAsWritten: the `int` addition of the two middle times can overflow. The model's addition is unbounded.
- Profiler.Record: response lengths above INT_MAX do not occur, because get returns fewer than 131071 bytes. The model stores the length as is.
- Profiler.RecordResponse: the source records size and time before parsing the status, the model after it. The difference is not observable, because a failed parse ends the process.
- get.h holds only declarations.

## Where the code differs from its description

The model follows the code in each of these cases:
- **parseResponseContent without a separator.** It is described as returning an empty result. The code computes `-1 + 4 = 3`, so it drops the first three characters, or throws out_of_range when the response is shorter than 3 (`ContentWithoutSeparatorExample`).
- **parsePath("http://example.com/a/b").** It is described as ending with "/a/b ". The scan stops at the rightmost '/', so the result is "/b " (`PathExamples`).
- **parseResponseStatus without "HTTP/1.1 ".** It is described as failing. The code computes npos + 9, which is 8 once npos is stored in an int as -1. It then reads the three characters at index 8, so "HTTP/1.0 200 OK" gives 20 (`StatusOfOlderVersion`). A response shorter than 8 throws out_of_range, and one of exactly 8 throws invalid_argument (`StatusWithoutToken`).
- **The even-count median.** It uses `n/2` and `n/2+1`. So [10,20,30,40] gives (30+40)/2 = 35, not the 25 the description gives; [10,20,30,40,50,60] gives 45. With exactly two times, `times.at(2)` throws out_of_range (`MedianExamples`, `MedianAgainstConventional`).
