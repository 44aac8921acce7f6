# Roman-Urdu transliteration and the rate-limited speech endpoint

This project models the two pieces of logic in the text-to-speech server that
are its own: the Roman-Urdu to Urdu-script converter (`roman_urdu.py`) and the
`/tts` route of the Edge-TTS server (`app.py`). The route is made of the
per-client rate limiter, the request validation, and the formatting of the
pitch, rate and gap parameters. The speech service is a function given as a
parameter.

Modules:

- `Rewrite`: the string operations the converter uses.
  - `str.lower()` (for ASCII letters and `Á`) and the `key in text` test.
  - The case-insensitive regular-expression substitution of a literal key.
  - `str.replace` of the question mark.
- `KeyOrder`: `sorted(keys, key=len, reverse=True)`, written as a stable insertion sort. It comes with a lemma that any ordered, stable arrangement is this one.
- `RomanUrdu`:
  - the `ROMAN_TO_URDU` table, entry by entry;
  - the well-formedness of its keys and values;
  - the conversion, both as a function and as the loop of the source.
- `RateLimit`:
  - the `rate_limit` decorator's bookkeeping as a class over its request log;
  - the per-client step;
  - a theorem that, for a rising clock, the decorator behaves like a limiter that remembers every admitted request.
- `Decimal`: `str(n)` for integers and a parser that reads it back.
- `Tts`:
  - the endpoint, with its defaults, its 400 and 500 replies, and the audio reply;
  - the parameter strings built by `generate_edge_tts`.
- `Service`: the endpoint behind the decorator with a quota of 10 requests per hour.
- `Wrappers`: `Option` and `Result`.

Two facts about the code shape the model:

- `gap` may be any integer; a gap of 0 or less inserts no break.
- The server has no provider fallback and no cache: an exception or empty audio becomes a 500 reply.

## Model

| member | source | states |
|---|---|---|
| Rewrite.Lower | roman_urdu.py:87 | lower-casing keeps the length and folds each character on its own: ASCII letters and `Á` become lower case |
| Rewrite.Contains | roman_urdu.py:96 | the case-sensitive `roman in text_lower` test; ContainsLowerIffOccurs states what it decides |
| Rewrite.ReplaceAll | roman_urdu.py:97-99 | the substitution by the IGNORECASE pattern of the escaped key; the lemmas below state its effect |
| Rewrite.ContainsLowerIffOccurs | roman_urdu.py:95-96 | for a lower-case key, `key in text.lower()` holds exactly when the key occurs in the text up to case, which is what the IGNORECASE pattern searches for |
| Rewrite.ReplaceAllNoMatch | roman_urdu.py:97-99 | a substitution whose key does not occur leaves the text unchanged |
| Rewrite.ReplaceAllLeftmost | roman_urdu.py:97-99 | the substitution keeps everything before the leftmost occurrence, puts the value there and resumes after the occurrence, so replaced occurrences never overlap |
| Rewrite.ReplaceAllRemovesKey | roman_urdu.py:97-99 | after the substitution the key no longer occurs, provided the value cannot re-create it |
| Rewrite.ReplaceChar | roman_urdu.py:102 | `str.replace` of one character; the four lemmas below fix its result |
| Rewrite.ReplaceCharRemoves | roman_urdu.py:102 | no `q` is left when the replacement holds none |
| Rewrite.ReplaceCharIdle | roman_urdu.py:102 | text without `q` comes back unchanged |
| Rewrite.ReplaceCharSingle | roman_urdu.py:102 | a `q` becomes the replacement, and any other character stays |
| Rewrite.ReplaceCharConcat | roman_urdu.py:102 | replacing in a concatenation is replacing in each part, so the result is fixed character by character |
| KeyOrder.SortByKeyLength | roman_urdu.py:93 | the sorted keys are in non-increasing length, form a permutation of the table, and keep table order among keys of equal length |
| KeyOrder.SortedMembers | roman_urdu.py:93 | sorting neither adds nor drops a key |
| KeyOrder.StableSortUnique | roman_urdu.py:93 | every ordered and stable arrangement of the keys equals the sort, so the sort is exactly Python's stable `sorted(..., key=len, reverse=True)` |
| KeyOrder.SortKeep | roman_urdu.py:93 | filtering the sorted keys equals sorting the filtered keys |
| RomanUrdu.Table | roman_urdu.py:7-73 | the `ROMAN_TO_URDU` literal, entry by entry in dictionary order |
| RomanUrdu.TableSpelled | roman_urdu.py:7-73 | every key of `ROMAN_TO_URDU` is lower-case Roman text and every value is Urdu-script text |
| RomanUrdu.TableWellFormed | roman_urdu.py:7-73 | every entry is well formed: the key is lower-case, and the value shares no character with the key's first letter, so it can never re-create the key |
| RomanUrdu.UrduPunctuation | roman_urdu.py:102 | no `?` is left after the final replacement, and text without one passes unchanged |
| RomanUrdu.UrduPunctuationPerCharacter | roman_urdu.py:102 | each `?` becomes the Urdu question mark and every other character stays, character by character |
| RomanUrdu.TransliterateWith | roman_urdu.py:75-104 | empty text is returned as it is, and the result never holds a `?` |
| RomanUrdu.Transliterate | roman_urdu.py:75-104 | the same for the `ROMAN_TO_URDU` table |
| RomanUrdu.ConvertWith | roman_urdu.py:83-104 | the loop over the sorted keys followed by the `?` replacement computes the conversion function |
| RomanUrdu.RomanUrduToUrduText | roman_urdu.py:75-104 | `roman_urdu_to_urdu_text` returns the conversion of its input under `ROMAN_TO_URDU` |
| RomanUrdu.Step | roman_urdu.py:96-99 | one turn of the loop: the gate on the lowered original text, then the substitution; StepEffect states its effect |
| RomanUrdu.Steps | roman_urdu.py:95-99 | the loop over the sorted keys; ConvertWith is proved to compute it |
| RomanUrdu.StepEffect | roman_urdu.py:95-99 | a key found in the lowered original text is replaced everywhere in the current text and then no longer occurs in it; a key not found leaves the text unchanged |
| RomanUrdu.StepsIdle | roman_urdu.py:95-99 | keys absent from the lowered text change nothing |
| RomanUrdu.StepsOccurring | roman_urdu.py:95-99 | running the loop over only the keys that pass the gate gives the same text as running it over all keys |
| RomanUrdu.OnlyOccurringKeys | roman_urdu.py:93-99 | the conversion depends only on the table entries whose keys occur in the text |
| RomanUrdu.NoKeyOccursWith | roman_urdu.py:95-102 | text in which no key of the dictionary occurs, up to case, comes back with only its question marks replaced |
| RomanUrdu.NoKeyOccurs | roman_urdu.py:95-102 | the same for `ROMAN_TO_URDU` |
| RomanUrdu.NoRomanLettersWith | roman_urdu.py:95-102 | a special case of NoKeyOccursWith: text with no character that folds to a Latin letter, a digit or `á` matches no key, so only its question marks change |
| RomanUrdu.NoRomanLetters | roman_urdu.py:95-102 | the same special case for `ROMAN_TO_URDU`: Urdu-script text, spaces and punctuation pass through the converter |
| RomanUrdu.WholeKeyWins | roman_urdu.py:92-99 | longest first: for any dictionary, a key given as the whole text becomes exactly its value, provided no other key at least as long occurs in it; the shorter keys inside it are not applied separately |
| RomanUrdu.WholeWord | roman_urdu.py:92-99 | the same for `ROMAN_TO_URDU`: a Roman word that is a key becomes its Urdu value |
| RateLimit.Prune | app.py:53-55 | exactly the logged times less than an hour old survive, and none is added |
| RateLimit.Min | app.py:59 | `min` of the remaining times is one of them and no later than any of them |
| RateLimit.Trunc | app.py:61-63 | `int()` truncates toward zero |
| RateLimit.WaitMinutes | app.py:59-63 | the minutes left until the oldest kept request leaves the hour, truncated; WaitMinutesBounds bounds it |
| RateLimit.WaitMinutesBounds | app.py:59-63 | the advertised wait is between 0 and 60 whole minutes and is the remaining time to the oldest request's expiry, rounded down to minutes |
| RateLimit.ClientStep | app.py:52-75 | for a new client, the request is admitted and logged; otherwise it is admitted iff fewer than the quota of recent requests remain, and an admitted request is appended after pruning; a refused one is not logged and reports the wait computed from the oldest kept time; the decorator fails (`min` of an empty list) exactly when the pruned log is empty and the quota is at most 0 |
| RateLimit.Admit | app.py:49-75 | the client's log is always present afterwards, and the logs of other clients are unchanged |
| RateLimit.AdmitWithinQuota | app.py:58-75 | with a positive quota the decorator never fails, an admitted client holds at most the quota of logged requests, and a refused client waits 0 to 60 minutes |
| RateLimit.PruneAppend | app.py:53-55 | pruning distributes over concatenation |
| RateLimit.PruneTwice | app.py:53-55 | pruning at an earlier time and then at a later one equals pruning once at the later time |
| RateLimit.IdealWithinQuota | app.py:58-75 | the reference limiter admits a request exactly when fewer than the quota of admitted requests fall in the last hour |
| RateLimit.ReplayIsIdeal | app.py:44-79 | for requests at rising times, the decorator's decisions equal those of the reference limiter that never forgets an admitted request |
| RateLimit.RateLimiter.constructor | app.py:19 | the request log starts empty, with the decorator's quota |
| RateLimit.RateLimiter.Check | app.py:49-75 | the decision and the new request log are those of the per-client step, applied to the request log as it was before the call |
| Decimal.NatString | app.py:485-486 | decimal digits with no leading zero |
| Decimal.IntString | app.py:485-486 | a leading minus sign exactly for negative numbers, and a leading digit otherwise |
| Decimal.ParseIntString | app.py:485-486 | the rendering of an integer reads back to the same integer |
| Decimal.IntStringInjective | app.py:61-63 | different integers are rendered differently |
| Tts.Signed | app.py:485-486 | a `+` is written exactly for numbers that are not negative, and a `-` for negative ones |
| Tts.SignedRoundTrip | app.py:485-486 | the signed rendering reads back to the number |
| Tts.SpeechParameters | app.py:485-486 | `pitch_str` is the signed pitch followed by `Hz`, and `rate_str` is the signed rate followed by `%`; both numbers read back |
| Tts.PitchString | app.py:485 | `pitch_str`; SpeechParameters states its form |
| Tts.RateString | app.py:486 | `rate_str`; SpeechParameters states its form |
| Tts.WrapGap | app.py:489-490 | a gap of 0 or less leaves the text unchanged, and a positive gap adds the SSML wrapper; WrapGapRoundTrip states that the wrapper can be undone |
| Tts.WrapGapRoundTrip | app.py:489-490 | with a positive gap, the SSML wrapper can be split back into the gap in milliseconds and the original text |
| Tts.SpeechFor | app.py:481-498 | the request `generate_edge_tts` makes of the speech service from its arguments |
| Tts.RequestFor | app.py:513-517 | the arguments the endpoint passes, with the defaults for absent fields; DefaultsApplied states them |
| Tts.TtsEndpoint | app.py:510-551 | the endpoint answers only 200, 400 or 500:<br>- 400 exactly for missing, empty or over-long text, with the source's two messages;<br>- 500 exactly for an unreadable body, a failed speech call (with its message) or empty audio ("Failed to generate audio");<br>- 200 is non-empty `audio/mpeg` with the two headers |
| Tts.TtsSucceeds | app.py:510-551 | the endpoint answers 200 iff the body was read, the text is non-empty and at most 1000 characters, and the speech service returned non-empty audio; the audio sent is exactly the service's output |
| Tts.TtsValidatesFirst | app.py:519-523 | missing, empty or over-long text gets 400 whatever the speech service would do |
| Tts.DefaultsApplied | app.py:513-517 | a body with only text uses the voice `en-US-JennyNeural`, pitch `+0Hz` and rate `+0%`, with no gap |
| Service.Serve | app.py:58-77 | a reply is 429 exactly when the limiter refused the request, and a 200 reply only comes from an admitted request |
| Service.RefusedNeverSynthesizes | app.py:58-65 | a refused request gets the same reply whatever its body and whatever the speech service, and never gets audio |
| Service.RefusalReadsBack | app.py:59-65 | the 429 reply carries the wait in minutes; its message reads back to the quota and its advice reads back to the wait |
| Service.TtsRouteQuota | app.py:508-509 | with the quota of 10:<br>- the limiter never fails;<br>- an admitted request is logged last with at most 10 in the log, even if its body is then refused;<br>- a refusal means the client has 10 requests in the last hour, and with no logged time in the future the wait is 0 to 60 minutes |
| Service.HandleTts | app.py:508-509 | the route replies as the decorator and then the endpoint do, and it updates the request log as the decorator does |

## Left out

- The HTML page, the voice list, logging, Flask routing and the JSON decoding are not modelled. The body is given as already decoded, or as the message of the exception raised while reading it.
- The random 20-30 second `time.sleep` in the decorator is not modelled. It delays a request but does not change any decision. Because of it, two requests that overlap can both pass the check before either is logged. The model treats requests one at a time and does not cover that race.
- Concurrency and the process-wide `request_log` shared between threads are not modelled.
- `time.time()` is a real-number parameter. Floating-point rounding is not modelled.
- The `edge_tts` streaming, the asyncio event loop and the audio chunks are not modelled. The speech service is a function from the request to the audio bytes or an exception message.
- `voice_manager.py`, `piper_server.py`, `piper_worker.py` and the static scripts are not part of this model.
- Case folding covers the ASCII letters and `Á`, whose lower case `á` starts three keys. Python's `str.lower()` and `re.IGNORECASE` fold every Unicode letter. The model differs where another character folds to a key character: the Kelvin sign `K` becomes `k`, the long s `ſ` matches `s` and the dotless `ı` matches `i` under IGNORECASE (though `str.lower()` keeps `ı`, so the gate and the substitution disagree), and `İ` lowers to two characters, which shifts the lowered text. Those inputs are converted differently by the source.
- NoRomanLetters: it covers only text with no character that folds to a Latin letter, a digit or `á`. The general statement, for any text in which no key occurs, is NoKeyOccurs.
- The table holds the code points that `roman_urdu.py` actually contains: its Urdu text is stored doubly encoded (UTF-8 read as Windows-1252). The model keeps that spelling and does not restore the intended Urdu letters.
- RomanUrdu.Transliterate: the docstring example `"aap kaise hain?"` is not proved. Computing the sort of the 92-entry table literal is beyond what the verifier can evaluate. The general properties of the conversion are proved instead.
- Rewrite.ReplaceAll: the value is inserted literally. `re.sub` would interpret backslash escapes in it, but no value in the table contains a backslash.
- Tts.TtsEndpoint: only integer `pitch`, `rate` and `gap` are modelled. The source also accepts a string or float that `int()` converts, and puts its original spelling in the parameter string. A JSON `text` that is not a string is not modelled either.
- Tts.TtsEndpoint: the `Access-Control-Allow-Origin` and `Content-Disposition` headers are fields of the audio reply. The remaining HTTP framing is not modelled.
- Service.HandleTts: when the limiter fails (a quota of 0 or less with an empty pruned log), the source raises an uncaught `ValueError` and Flask answers 500. The model replies `InternalServerError` for it; with the route's quota of 10 this never happens.
