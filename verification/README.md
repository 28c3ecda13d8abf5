# Trivia client and its framing codec, in Dafny

This project models the client side of a small trivia game protocol. Two layers are modelled.

- **The framing codec (`chatlib.py`).** A message travels as `<command padded to 16>|<data length, 4 digits>|<data>`, and the whole frame is whitespace-stripped at both ends. `parse_message` splits a frame at most twice on `|`. It accepts the frame only when the normalised length field is the decimal length of the data. The data may carry `#`-separated sub-fields (`split_data`, `join_data`).
- **The client's request/reply sequencing (`client.py`).** The socket and `input()` are replaced by a scripted environment, a `Session`:
  - `inbox`: the replies still to arrive, one per receive, each as `parse_message` decodes the frame the server sent. `RunClient(frames, inputs)` is the client run on the raw frames; it decodes them with `Decode`.
  - `inputs`: the lines the operator has still to type.
  - `sent`: the log of requests written to the connection, as (command, data) pairs. The frame on the wire for a request is `BuildMessage` of that pair.
  - `phase`: unauthenticated, authenticated or terminated.

  Every operation is a pure function over the session. `login`, `get_score`, `get_highscore`, `get_logged_users`, `play_question` and the menu of `main` map a session to an `Outcome`. `logout` cannot fail and returns the next session. `show_question` maps the question data to an optional question. An outcome is either the next session with the operation's value, or the session at the point where the client would die with an uncaught exception:
  - `InputExhausted`: `input()` reaches end of file;
  - `EncodeRejected`: `build_message` returns `None`, so `.encode()` fails;
  - `ShortQuestion`: question data has fewer than six fields, so `show_question` raises IndexError.

Modules:
- `Wrappers`: `Option`.
- `Text`: the Python string built-ins the protocol uses. These are `strip` with Python's full `isspace` character set, `split` with and without `maxsplit`, `join`, `str(n)`, `zfill` and `lstrip('0')`.
- `Chatlib`: the codec and its laws.
- `Client`: the scripted session, the operations, and the properties of whole runs.

On the codec, `parse_message` checks only the payload's length, so a same-length change is accepted (`Chatlib.ParseAcceptsSameLength`).

## Model

| member | source | states |
|---|---|---|
| Chatlib.BuildMessage | chatlib.py:32-48 | Returns no frame exactly when the command is longer than 16 or the data longer than 9999 characters. Otherwise the frame is at most 22 characters longer than the data. |
| Chatlib.LengthDigitsWidth | chatlib.py:44-46 | Every length up to 9999 is written as exactly four digits, which hold no delimiter. |
| Chatlib.StrippedFrame | chatlib.py:46 | Stripping a built frame only removes leading whitespace of the padded command and trailing whitespace of the data. The two delimiters and the length field stay. |
| Chatlib.BuildMessageLayout | chatlib.py:41-48 | When the command starts with a non-space and the data does not end in whitespace, the frame is: the command, spaces up to 16, a delimiter, the four length digits (which read back as the length), a delimiter, then the data unchanged. The header is 22 characters. |
| Chatlib.LengthField | chatlib.py:66-68 | The normalised length field is never empty, and it is either "0" or does not start with '0'. A field that is all digits once stripped normalises to digits. |
| Chatlib.ParseMessage | chatlib.py:51-72 | A frame with fewer than two delimiters is rejected. A decoded command never contains the delimiter. |
| Chatlib.SplitTwice | chatlib.py:57-64 | Splitting on the delimiter with a limit of 2 yields at most three pieces, and three exactly when the frame has two delimiters. The third piece is everything after the second delimiter, so the branch for more than three pieces is unreachable. |
| Chatlib.ParseMessageFields | chatlib.py:57-72 | For every frame made of `a`, `b` and `d` joined by the delimiter, with no delimiter in `a` and `b`: decoding succeeds exactly when the normalised `b` equals `str(len(d))`, and then yields `(strip(a), d)`. Together with `ParseMessage` this covers all inputs. |
| Chatlib.LengthFieldOfDigits | chatlib.py:46-70 | A length field written by `build_message` normalises back to the decimal length. |
| Chatlib.RoundTrip | chatlib.py:46-72 | For a command of at most 16 characters without the delimiter and data of at most 9999 characters, a frame is built. It decodes to `(strip(cmd), data)` when the data does not end in whitespace, and is rejected when it does. |
| Chatlib.ParseAcceptsSameLength | chatlib.py:66-72 | An accepted frame whose payload is replaced by another of the same length is still accepted, with the new payload. |
| Chatlib.ParseRejectsLengthChange | chatlib.py:66-71 | An accepted frame whose payload changes length is rejected. |
| Chatlib.LoginFrameExample | chatlib.py:41-72 | `("LOGIN", "alice#secret")` builds `LOGIN`, 11 spaces, a delimiter, `0012`, a delimiter and `alice#secret` and decodes back to the same pair. |
| Chatlib.EmptyDataExample | chatlib.py:57-72 | `X` followed by two delimiters decodes to `("X", "")`: an empty length field reads as zero. |
| Chatlib.SplitData | chatlib.py:91-104 | Splitting on `#` gives one more field than there are `#`, with no arity check. No field contains `#`, and joining the fields gives the string back. |
| Chatlib.JoinData | chatlib.py:109-115 | Joining a non-empty list of `#`-free fields with `#` gives a string that splits back into exactly those fields. `SplitData` states the converse, and `SplitJoinData` states the round trip. |
| Chatlib.SplitJoinData | chatlib.py:100-115 | Splitting undoes joining for every non-empty list of `#`-free fields. |
| Chatlib.SplitJoinDataEmpty | chatlib.py:109-115 | The empty list joins to "", which splits into one empty field, so the empty list does not round-trip. |
| Chatlib.ClientCommandsFit | chatlib.py:10 | Every client command is a non-empty upper-case name of at most 16 characters. |
| Chatlib.ServerCommandsFit | chatlib.py:11 | Every server command is a non-empty upper-case name of at most 16 characters. |
| Chatlib.CommandNameClean | chatlib.py:10-11 | Such a name holds neither delimiter and is unchanged by stripping, so it is decoded exactly as sent. |
| Text.Strip | chatlib.py:46 | `strip()` is empty exactly on all-whitespace input. Otherwise it neither starts nor ends with whitespace. |
| Text.StripAroundSeparators | chatlib.py:46 | Stripping `p c l c d` around a non-space separator `c` only touches the start of `p` and the end of `d`. |
| Text.SplitNCount | chatlib.py:57-58 | `split(d, n)` makes `n` splits, or one per `d` when there are fewer `d` or no limit. |
| Text.SplitNJoin | chatlib.py:57-64 | The pieces of `split(d, n)` joined with `d` give back the string. |
| Text.Split | chatlib.py:100 | `split(d)` has one piece more than the number of `d`. The pieces hold no `d` and join back to the string. |
| Text.SplitJoin | chatlib.py:100-115 | `split(d)` inverts `d.join` on non-empty lists of `d`-free pieces. |
| Text.ZFill | chatlib.py:46 | `zfill(w)` keeps the numeral as a suffix and pads with zeros up to width `w`. |
| Text.StripZeros | chatlib.py:66 | `lstrip('0')` removes exactly the leading zeros. |
| Text.StripZerosPadded | chatlib.py:66-68 | Zeros stripped from a zero-padded numeral give back the numeral, or nothing for an all-zero one. |
| Text.NatToStringInjective | chatlib.py:70 | `str(a) == str(b)` exactly when `a == b`, so the length check compares lengths. |
| Client.EncodableFits | client.py:27-28 | `build_message` accepts a request exactly when both fields fit their header fields. |
| Client.Send | client.py:11-28 | Sending appends exactly the request to the log and reads nothing. A request that does not fit stops the client with nothing sent. |
| Client.SendFollowsCodec | client.py:27-28 | The client stops exactly when `build_message` returns `None`, and otherwise the encoded request is the one logged. |
| Client.Receive | client.py:32-44 | A receive yields the next decoded reply and consumes exactly one. A closed connection yields the error pair. |
| Client.DecodeReceives | client.py:41-44 | The `k`-th receive yields `parse_message` of the `k`-th frame, or of "" once the server has stopped sending. |
| Client.Decode | client.py:41-44 | Each frame of the script is decoded to one reply, and an empty frame decodes to the error pair. |
| Client.ReceiveDelivered | client.py:41-44 | A frame built from a server command and data that does not end in whitespace arrives as that command and data. |
| Client.Exchange | client.py:68-77 | One send followed by one receive. A request that does not fit stops the client before anything is sent or read. |
| Client.Input | client.py:92-93 | `input()` yields the next operator line, or stops the client at end of input. |
| Client.LoginAttempt | client.py:92-97 | One attempt reads two lines and sends one LOGIN with `username#password`. It consumes one reply and succeeds exactly when that reply carries LOGIN_OK. It stops early when input runs out or the credentials are too long to encode. |
| Client.Login | client.py:81-101 | A login that returns is authenticated after at least one attempt. One that stops keeps the phase. |
| Client.LoginAccepted | client.py:91-101 | A login that returns made one attempt more than the position of the first LOGIN_OK reply. The attempts were exactly the LOGIN requests for the first credential pairs, in order, with one reply consumed each. |
| Client.LoginStopped | client.py:91-101 | A login that stops early has read no LOGIN_OK reply. It sent the LOGIN requests for the pairs before the one where input ran out or the credentials were too long. |
| Client.LoginReaches | client.py:91-101 | When the first LOGIN_OK reply is at position `i` and the first `i + 1` credential pairs are typed and fit, login returns after exactly `i + 1` attempts. |
| Client.LoginAppends | client.py:91-96 | Login only appends LOGIN requests that fit, with one reply read for each. |
| Client.Logout | client.py:106-113 | Logout sends exactly one LOGOUT with empty data, reads no reply and terminates the session. |
| Client.Query | client.py:121-125 | A query sends one request with empty data and consumes exactly one reply. It uses the reply's data exactly when the reply carries the expected command. |
| Client.GetScore | client.py:115-125 | MY_SCORE is sent and one reply is read. A score is returned exactly for a YOUR_SCORE reply, and it is that reply's data. |
| Client.GetHighscore | client.py:128-140 | HIGHSCORE is sent, one reply is read, and only an ALL_SCORE reply is used: its data, split into newline-free lines that join back to it, one more line than the data has newlines (an empty table is one empty line). |
| Client.GetLoggedUsers | client.py:189-199 | LOGGED is sent and one reply is read. A user list is returned exactly for a LOGGED_ANSWER reply, and it is that reply's data. |
| Client.QueryDelivered | client.py:121-125 | A reply frame built from the expected command delivers its data to the query. |
| Client.QueryIgnored | client.py:121-125 | A reply frame built from any other server command is ignored. |
| Client.ShowQuestion | client.py:173-186 | Question data is usable exactly when it has at least six `#`-separated fields. The id is the text before the first `#`, and there are four answers. |
| Client.ShowQuestionOfFields | client.py:179-186 | For at least six `#`-free fields joined with `#`, the question is field 0 as id, field 1 as text and fields 2 to 5 as answers. |
| Client.PlayQuestion | client.py:143-171 | A reply other than YOUR_QUESTION to GET_QUESTION ends the round, with only GET_QUESTION sent and one reply read. |
| Client.Answer | client.py:157-167 | The answer sends SEND_ANSWER with `id#answer` for the next operator line, then acts on the verdict in the next reply. It stops with nothing sent when input has ended or the answer does not fit. |
| Client.Verdict | client.py:161-167 | Exactly one extra MY_SCORE round trip, exactly on CORRECT_ANSWER. WRONG_ANSWER yields the reply's data, NO_QUESTIONS ends the game, and any other reply sends nothing. |
| Client.PlayQuestionShown | client.py:154-159 | After YOUR_QUESTION, question data with fewer than six fields stops the round. Otherwise the answer goes out for the question's id. |
| Client.PlayQuestionRequests | client.py:154-171 | A round sends GET_QUESTION first, then one to three requests in all. The second is SEND_ANSWER with the question id and the next line, sent only after YOUR_QUESTION. The third is MY_SCORE, sent only after CORRECT_ANSWER. One reply is read per request. |
| Client.AnswerRequests | client.py:157-163 | A round that answers sends GET_QUESTION, then SEND_ANSWER with `id#answer`, then MY_SCORE exactly on a correct verdict. It consumes one line and one reply per request. |
| Client.QuestionIdUnique | client.py:179-180 | Question data has one id: the text before its first `#`. |
| Client.PlayQuestionOutcome | client.py:154-171 | How the replies decide the end of a round. There is no question unless the first reply is YOUR_QUESTION. The round stops on short question data or ended input. Otherwise the result is the verdict of the second reply, with the score taken from the third after CORRECT_ANSWER. |
| Client.PlayQuestionAppends | client.py:154-162 | A round only appends GET_QUESTION, SEND_ANSWER and MY_SCORE requests that fit. |
| Client.DispatchRequests | client.py:214-221 | Choices `s`, `p`, `h` and `l` start with MY_SCORE, GET_QUESTION, HIGHSCORE and LOGGED. Any other choice sends and reads nothing. Only `p` can stop the client. One reply is read per request. |
| Client.Dispatch | client.py:214-221 | A dispatched choice keeps the phase. Only `p` reads operator input: at most one line, the answer to the question. |
| Client.Menu | client.py:206-224 | The menu ends normally exactly in the terminated phase. |
| Client.MenuRequests | client.py:206-224 | The menu appends menu requests that fit, with one reply each. A `q` read as the choice logs out and ends the menu at once. A normal end comes only right after a `q` was read, and then with exactly one final LOGOUT that reads no reply. |
| Client.Run | client.py:202-225 | A run ends normally exactly when it is terminated. It stays unauthenticated exactly when the login loop stopped. |
| Client.RunClient | client.py:202-225 | Over the raw frames: a run ends normally exactly when it is terminated. It stays unauthenticated exactly when the login loop stopped. |
| Client.RunShaped | client.py:202-225 | A run's log is the LOGIN requests, then menu requests, then LOGOUT exactly when the run ended normally. The number of LOGIN requests is one more than the position of the first LOGIN_OK reply once the client is logged in. One reply is read per request except LOGOUT. |
| Client.RunClientLog | client.py:202-225 | In every run on raw frames, every request is a client command that the codec accepts. LOGIN requests come first. Without any LOGIN_OK frame only LOGIN is sent. LOGOUT is sent only as the last request of a normal end, and a normal end always sends it. |

## Left out

- Sockets and process plumbing (`connect`, `SERVER_IP`, `SERVER_PORT`, `error_and_exit`) are not modelled. The transport is the scripted inbox and the request log.
- Printed output is left out. Operations return what they would print: the score, the high-score lines, the logged users, the question, the verdict.
- `recv(1024)` is modelled as delivering exactly one whole frame per receive. Partial reads, frames over 1024 bytes and coalesced frames are not modelled. A closed connection delivers "", which decodes to the error pair.
- UTF-8 encoding and decoding are left out. Frames are character strings, and lengths count characters, as `chatlib` does.
- `parse_message1` is left out: nothing calls it.
- `PROTOCOL_SERVER`, `ERROR_RETURN` and the unused `PROTOCOL_CLIENT` entries are left out. The LOGIN and LOGOUT names taken from `PROTOCOL_CLIENT` appear as literals.
- `if conn:` in `main` is always true for a connected socket, so the menu always follows a successful login.
- Uncaught exceptions are modelled as `Halted` outcomes rather than as preconditions, because their triggers come from the scripted environment during the run: end of operator input, a request too long to encode, short question data.
- Client.Run: the login and menu loops are bounded by the finite operator input, since every iteration reads at least one line. An infinite operator is not modelled.
- The `len(parts) > 3` branch of `parse_message` is not modelled as a branch. `Chatlib.SplitTwice` proves it cannot be taken.
- Client.Query: requires a request name of at most 16 characters. The source only ever passes its fixed command names there, and those satisfy it (`Chatlib.ClientCommandsFit`).
- The server is not part of this model.
