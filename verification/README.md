# Exact kernels, the template executor and the tree bridge

A model of three parts of the repository, each in the form the code has (loops over arrays, classes whose methods
update their fields, recursive definitions where the code computes), and proofs of what those parts are for. One
`dafny verify dfyconfig.toml` checks all of it.

**Numbers** (`lua/cartograph/luajs/strscan.js`, `strfmt.js`, `fpu.js`). A double is `Finite(neg, units)`, its magnitude
an exact natural number of units of the smallest subnormal, or an infinity, or NaN; its 64-bit pattern is `Fpu.Bits`.
Formats are a parameter: everything is stated for any precision, range and exponent field that meet the conditions the
statement names, and `BINARY64` is an instance. `Ieee.CorrectlyRounded` is the definition of section 4.3.1 of IEEE
754-2019 (a nearest representable value, ties to the even significand, infinity exactly from the overflow threshold
on); `Ieee.Round` computes it, and the two are proved to be one thing. On top of them stand the reader of hexadecimal
and decimal text, with its ring of base-100 digits, and the writer of `%f`, with its ring of base-10^9 limbs.

**Lua strings, tables and messages** (`lstrmatch.js`, `pack.js`). The backtracking matcher against a reference meaning
of patterns, "all results in order of priority", and what that meaning is, item by item, in the bytes of the pattern
(`PatternLaws`, `PatternClasses`); `find`, `gmatch` and `gsub` on top of it, and what they take and give
(`StringLaws`); tables in three shapes with their side maps and the cached border; `next` and `pairs`; `table.insert`
and `table.remove`; the MessagePack codec.

**Templates** (`tools/helmprov/tpl/exec.go`, `prov.go`). `TemplateRun` says what executing a template does, arms not
taken included; `TemplateExecutor` is the executor over its mutable state and does exactly that; the theorems about
invisibility, scoping and spans are about the former and so about both, and `TemplateLaws` says node by node what it is,
the arms it explores included. Values, the evaluation of commands, what is printed and what is ranged over come from an
abstract host.

**The tree bridge** (`tsbridge.c` and its client in `pack.js`). The cursor walk and its explicit stack, the lines it
writes, the arrays the client rebuilds from them, the hash index from nodes to ids, and the server's table of trees
with its eviction, under every sequence of requests.

## Findings

Places where the code does not do what it is for. Each has an input, and the condition under which the code is right.

- `strscan_double` near 2^63. The pre-rounding at the lowest unit can take a significand below 2^63 up to 2^63, which
  the signed conversion reads as negative: the double is right if and only if `ScanDouble.Wraps` is false.
  `ScanDouble.WrapExample`: 2^63 - 1 times 2^-1085. Only significands of at least 2^62 are concerned
  (`ScanDouble.SmallNeverWraps`), and none of the three callers in the file passes one: the hexadecimal and the binary
  reader shift the top two bits away first, and what the decimal reader gathers is below 2^62 (`ScanText.StrscanHex`
  and `ScanDec.StrscanDec` have no exception for it).
- `strscan_dec`, the emptied ring. When the divisions by 64 use up a number to the last digit, `hi === lo` is taken for
  a full ring and the rest is given up. Up to 320 digits on a blank ring the text is read as the nearest double if and
  only if `ScanDec.RunsDry` is false (`ScanDecDepartures.ReadsNearest`); that is the numbers c * 64^k with c < 64 whose
  exponent leaves nine digit pairs or more. `ScanDecDepartures.DryExample`: 73786976294838206464e100 is read as 2^77.
- `strscan_dec`, 800 digits on an odd power of ten. The pairs then end half a pair early, and the byte after the digits
  is taken as one more of them. A text of any number of digits that does not fill the ring is read right if and only if
  no point halfway between two neighbouring doubles lies between its number and the one taken
  (`ScanDecDepartures.ReadsDigits`); the two numbers are the same up to 800 digits, unless there are 800 on an odd power
  and the next byte is not '0' (`ScanDec.TakenExactly`). `ScanDecDepartures.HalfwayExample`: 18014398509481986, 783
  zeros and e-783 are 2^54 + 2, and read as 2^54 + 4 where the tie goes to 2^54.
- `nd_round` looks at a limb before it steps down to the next, so lower limbs that are all zero count as something when
  the digit's own limb is not the lowest: the rounding is half-even if and only if `StrFmtRound.TiePushed` is false
  (`StrFmtRound.NdRound`; `StrFmtRound.TiePushedExample`). `nd_div2k` never leaves a lowest limb of zero, so `%f` does
  not meet it (`StrFmtFixed.NoTiePushed`).
- `match_capture` reads the length of a position capture as -2, so a back-reference to one always matches and steps two
  bytes back. `PatternBounds.PositionReferenceExample`: the pattern `()%1` ends two bytes before its start. Patterns
  without such references keep every result between its start and the end of the subject
  (`PatternBounds.MatchWithin`); this condition is sufficient, not necessary, since a reference need not be reached.
- `mdel` lowers the cached border for every number at or below it, integer or not, positive or not: `#` after a step is
  a border if and only if `TableBorder.Spoils` is false (`TableBorder.LengthAfter`). `TableBorder.SpoiledExample`:
  deleting key 0 of `{[1] = true}` makes its length -1.
- `mp_decode` leaves out an entry whose key is vim.NIL, which `mp_encode` writes: what comes back is the same map if
  and only if no table in the value, at any depth, has such a key (`MsgPackNullKeys.SameUnlessNullKey`).
  `MsgPackNullKeys.NullKeyExample`: `{[vim.NIL] = true}` comes back empty.
- `walkRange1` recovers a `break` anywhere on its way out, its else arm included: with nothing to range over, a range
  stops as its else arm does if and only if that arm does not break (`TemplateBreaks.ElseBreakSwallowed`).
  `TemplateBreaks.ElseBreakExample`: in `{{range two}}{{range none}}{{else}}{{break}}{{end}}b{{end}}` the break is
  reached twice and ends neither round, and the text is `bb`.

## Model

| member | source | states |
|---|---|---|
| `Ieee.CorrectlyRoundedIffRound` | lua/cartograph/luajs/fpu.js:47-67 | a double is correctly rounded in the sense of IEEE 754-2019 section 4.3.1 if and only if it is what `Round` computes |
| `Ieee.RoundIdentity` | lua/cartograph/luajs/fpu.js:49-67 | rounding is the identity on representable values |
| `Midpoints.SameUnlessParted` | lua/cartograph/luajs/fpu.js:47-67 | two exact values round to the same double if and only if no point halfway between neighbouring doubles, with ties, lies between them |
| `Fpu.DecomposeExact` | lua/cartograph/luajs/fpu.js:14-23 | sign, significand and exponent read off the bit pattern denote the double they were taken from |
| `Fpu.Ldexp` | lua/cartograph/luajs/fpu.js:26-31 | scaling in steps of 2^1000 loses nothing: the exact product, or infinity past the largest double |
| `Fpu.RoundOnce` | lua/cartograph/luajs/fpu.js:49-67 | `round(S, E)` is the one rounding of S * 2^E |
| `Fpu.Fma` | lua/cartograph/luajs/fpu.js:34-45 | `$fma` on bit patterns is the fused multiply-add, zero and non-finite operands included |
| `Fpu.FmaCorrect` | lua/cartograph/luajs/fpu.js:33-45 | its result is the exact a*b + c rounded once, infinite only from the overflow threshold |
| `Fpu.FmaOdd` | lua/cartograph/luajs/fpu.js:34-67 | negating product and addend negates a result whose exact value is not zero |
| `Fpu.RoundExactMonotone` | lua/cartograph/luajs/fpu.js:49-67 | a larger exact value never rounds to a smaller double |
| `Fpu.LdexpOnce` | lua/cartograph/luajs/fpu.js:70-74 | `$ldexp` is the exact x * 2^n rounded once, subnormal results included |
| `ScanDouble.StrscanDouble` | lua/cartograph/luajs/strscan.js:52-67 | pre-rounding, conversion and scaling give the nearest double to x * 2^ex2 if and only if not `Wraps`; otherwise the one of the other sign |
| `ScanDouble.WrapsExactly` | lua/cartograph/luajs/strscan.js:52-62 | the pre-rounded integer reaches 2^63 exactly under the condition on x and its half unit |
| `ScanDouble.SmallNeverWraps` | lua/cartograph/luajs/strscan.js:52-67 | significands below 2^62 are always read right |
| `ScanDouble.WrapExample` | lua/cartograph/luajs/strscan.js:52-67 | an input of binary64 that is misread |
| `ScanText.HexTail` | lua/cartograph/luajs/strscan.js:79-88 | digits past the sixteenth fold into one sticky bit that keeps the rounding |
| `ScanText.StrscanHex` | lua/cartograph/luajs/strscan.js:69-107 | hexadecimal text of any length, a point anywhere in it, is the nearest double to its number times 2^ex2 |
| `DecDigits.Fill` | lua/cartograph/luajs/strscan.js:151-180 | the ring holds the first 800 digits by pairs, the rest as a low bit, and which number and power of ten that is |
| `DecRing.MulLoop` | lua/cartograph/luajs/strscan.js:236-256 | the multiplications by 64 keep the number times a power of two exactly, in a ring that wraps, and fill it only past a stated length |
| `DecRing.DivLoop` | lua/cartograph/luajs/strscan.js:257-276 | so do the divisions, remainders written behind; the number is given up if and only if it is c * 64^k with c < 64 and the exponent is large enough |
| `DecRing.DivisionsBound` | lua/cartograph/luajs/strscan.js:257-276 | how many divisions it takes to shorten a number, so that what they append cannot really fill the ring |
| `ScanDec.GatheredRounds` | lua/cartograph/luajs/strscan.js:277-295 | the gathered 64 bits with their sticky bit round as the whole ring does |
| `ScanDec.HugeOverflows` | lua/cartograph/luajs/strscan.js:229-231 | the first early exit: more than 155 digit pairs are infinite |
| `ScanDec.TinyIsZero` | lua/cartograph/luajs/strscan.js:232-235 | the second: below 163 pairs behind the point the nearest double is zero |
| `ScanDec.Binary64Decimals` | lua/cartograph/luajs/strscan.js:229-235 | binary64 meets the conditions the exits need |
| `ScanDec.FastPath` | lua/cartograph/luajs/strscan.js:181-218 | without an exponent the 64-bit sum is used exactly for up to 19 digits below 2^63, and then it is the nearest double |
| `ScanDec.StrscanDec` | lua/cartograph/luajs/strscan.js:147-299 | the double nearest to the digits taken, unless the ring is given up; up to 320 digits exactly when it runs dry, and what is stored then |
| `ScanDec.TakenExactly` | lua/cartograph/luajs/strscan.js:151-180 | the digits taken are the text's own in every case but 800 digits on an odd power followed by something other than '0' |
| `ScanDec.DecimalCorrect` | lua/cartograph/luajs/strscan.js:147-299 | up to 800 digits what is stored is correctly rounded from digits * 10^ex10 |
| `ScanDecDepartures.ReadsNearest` | lua/cartograph/luajs/strscan.js:147-299 | up to 320 digits on a blank ring the text is read as its nearest double if and only if it does not run the ring dry |
| `ScanDecDepartures.MisreadWhenDry` | lua/cartograph/luajs/strscan.js:267-271 | what is stored for an emptied ring is never the nearest double |
| `ScanDecDepartures.DryExample` | lua/cartograph/luajs/strscan.js:267-271 | the bytes 73786976294838206464, exponent 100, are read as 2^77 |
| `ScanDecDepartures.EightHundredOdd` | lua/cartograph/luajs/strscan.js:165-173 | which number is taken for 800 digits on an odd power: one more when the next byte is not '0' |
| `ScanDecDepartures.ReadsDigits` | lua/cartograph/luajs/strscan.js:147-299 | for every number of digits, a text that does not fill the ring is read right if and only if no midpoint of two doubles lies between its number and the one taken |
| `ScanDecDepartures.HalfwayMisread` | lua/cartograph/luajs/strscan.js:165-173 | every text of 800 digits that stands for 2^(bits+1) + 2 on an odd power, before another byte than '0', is rounded the wrong way |
| `ScanDecDepartures.HalfwayExample` | lua/cartograph/luajs/strscan.js:165-173 | the bytes of such a text in binary64, and that it is misread |
| `StrFmtInt.Wint` | lua/cartograph/luajs/strfmt.js:42-125 | the sign and the decimal numeral of every 32-bit integer, by multiplications instead of divisions |
| `StrFmtInt.Wuint9` | lua/cartograph/luajs/strfmt.js:254-293 | nine digits with leading zeros |
| `StrFmtInt.NdigitsDec` | lua/cartograph/luajs/strfmt.js:37-40 | the number of digits the writer writes, from a bit length and a table |
| `ScanInt.ScanInteger` | lua/cartograph/luajs/strscan.js:301-400 | the decimal-integer fast path is taken exactly for fewer than ten digits or ten in the 32-bit range, and yields the signed number |
| `ScanInt.PrintThenScan` | lua/cartograph/luajs/strscan.js:301-400 | every 32-bit integer comes back from the bytes the writer wrote, by the fast path |
| `StrFmtRing.NdMul2k` | lua/cartograph/luajs/strfmt.js:127-154 | the limbs become those of V * 2^k with the carry brought in, each below 10^9, the top one not zero |
| `StrFmtDiv.NdDiv2k` | lua/cartograph/luajs/strfmt.js:156-222 | the limbs become those of the exact quotient by 2^k across the wrap-around, and an appended lowest limb is not zero |
| `StrFmtRound.NdAddM10e` | lua/cartograph/luajs/strfmt.js:224-252 | exactly m * 10^e is added, carries rippling across the wrap into a new top limb |
| `StrFmtRound.NdRound` | lua/cartograph/luajs/strfmt.js:320-373 | truncating after it is half-even rounding of the old number if and only if not `TiePushed` |
| `StrFmtRound.TiePushedExample` | lua/cartograph/luajs/strfmt.js:356-362 | a window that is rounded up where half-even goes down |
| `StrFmtFixed.NoTiePushed` | lua/cartograph/luajs/strfmt.js:356-362 | a lowest limb that is not zero rules that out |
| `StrFmtFixed.LoadSignificand` | lua/cartograph/luajs/strfmt.js:571-591 | the limbs and exponent loaded from the two words denote the double |
| `StrFmtFixed.Expand` | lua/cartograph/luajs/strfmt.js:571-603 | scaled and rounded, the ring holds the number of `prec` decimals nearest to the double |
| `StrFmtFixed.Length` | lua/cartograph/luajs/strfmt.js:796-796 | the length computed before the first byte is the number of bytes of sign and digits |
| `StrFmtFixed.PaddedLength` | lua/cartograph/luajs/strfmt.js:801-820 | so the text is as wide as the larger of that length and the width |
| `StrFmtFixed.WfnumFixed` | lua/cartograph/luajs/strfmt.js:535-603 | `%f` of every finite double in range, any precision, width and flags: padding, sign and the half-even rounded numeral, byte by byte |
| `StrFmtDouble.StandardFields` | lua/cartograph/luajs/fpu.js:14-23 | `Fpu.Bits` is the layout of section 3.4 of IEEE 754-2019: sign, biased exponent and trailing significand of the value |
| `StrFmtDouble.WordsOfDouble` | lua/cartograph/luajs/strfmt.js:571-591 | the two 32-bit halves of a finite double give back its sign and, as significand times power of two, its exact magnitude |
| `StrFmtDouble.DigitsDenote` | lua/cartograph/luajs/strfmt.js:42-125 | a numeral of `w` digits denotes the number modulo 10^w, digit by digit |
| `StrFmtDouble.WfnumDouble` | lua/cartograph/luajs/strfmt.js:535-603 | `%f` of every finite double that is zero or at least 2^-488, from its value alone: padding, a sign exactly when one is due, and digits that denote magnitude * 10^prec rounded half-even |
| `StrFmtFixed.WholePrints` | lua/cartograph/luajs/strfmt.js:593-596 | a whole number prints as its exact numeral and zeros |
| `LStrMatch.MatchBalance` | lua/cartograph/luajs/lstrmatch.js:46-63 | `%b`: one past the byte that balances the first, null without one, an error on a pattern cut short |
| `LStrMatch.MatchBracketClass` | lua/cartograph/luajs/lstrmatch.js:95-111 | a byte is accepted if and only if a class, a range or a byte of the set lists it |
| `LStrMatch.MatchState.MaxExpand` | lua/cartograph/luajs/lstrmatch.js:139-148 | `*` and `+` answer with the first result in the order longest run first |
| `LStrMatch.MatchState.MinExpand` | lua/cartograph/luajs/lstrmatch.js:150-155 | `-` answers with the first result in the order shortest run first |
| `LStrMatch.MatchState.StartCapture` | lua/cartograph/luajs/lstrmatch.js:20-29 | a capture opened for a match that fails is gone again |
| `LStrMatch.MatchState.EndCapture` | lua/cartograph/luajs/lstrmatch.js:38-44 | a capture closed for a match that fails is open again |
| `LStrMatch.MatchState.Match` | lua/cartograph/luajs/lstrmatch.js:157-249 | `match` returns the head of all results in priority order with its captures, null exactly when there are none and then with the captures as on entry, or the error; the depth is restored; "too complex" only when depth and pattern together reach the limit |
| `PatternClasses.ClassMeaning` | lua/cartograph/luajs/lstrmatch.js:82-93 | each class letter accepts its ranges of bytes, and its upper-case letter the others |
| `PatternClasses.EscapedByte` | lua/cartograph/luajs/lstrmatch.js:82-93 | any other escape accepts its own byte |
| `PatternLaws.SetMeaning` | lua/cartograph/luajs/lstrmatch.js:65-111 | a set as it is written, `^` and all, ends at its bracket and accepts exactly the bytes one of its members means, or none does |
| `PatternLaws.OneByte` | lua/cartograph/luajs/lstrmatch.js:126-137 | `.` accepts every byte, an escape what it means, another byte itself |
| `PatternLaws.Star` | lua/cartograph/luajs/lstrmatch.js:224-226 | with n the greatest number of bytes in a row that match, `*` has the results of the rest of the pattern n bytes on, n - 1, down to none |
| `PatternLaws.Plus` | lua/cartograph/luajs/lstrmatch.js:227-229 | `+` has them down to one byte, and no result when n is 0 |
| `PatternLaws.Minus` | lua/cartograph/luajs/lstrmatch.js:230-232 | `-` has them from no byte up to n |
| `PatternLaws.Optional` | lua/cartograph/luajs/lstrmatch.js:214-223 | `?` has those after one byte that matches, then those after none |
| `PatternLaws.Once` | lua/cartograph/luajs/lstrmatch.js:233-241 | without a repetition exactly one byte is taken |
| `PatternLaws.BalancedText` | lua/cartograph/luajs/lstrmatch.js:170-174 | `%bxy` goes on after the `y` at which, for the first time, every `x` so far has its `y` |
| `PatternLaws.NoBalancedText` | lua/cartograph/luajs/lstrmatch.js:46-63 | and has no result where there is no such `y` in the subject |
| `PatternLaws.FrontierLaw` | lua/cartograph/luajs/lstrmatch.js:175-189 | `%f` goes on exactly between a byte outside the set, NUL before the subject, and one inside |
| `PatternLaws.Ends` | lua/cartograph/luajs/lstrmatch.js:200-205 | the end of the pattern matches, `$` before it at the end of the subject only |
| `PatternLaws.Opens` | lua/cartograph/luajs/lstrmatch.js:20-29 | `(` opens a capture, `()` notes the place, and the thirty-third is an error |
| `PatternLaws.Closes` | lua/cartograph/luajs/lstrmatch.js:31-44 | `)` gives the last open capture the bytes since its start |
| `PatternLaws.ClosesNothing` | lua/cartograph/luajs/lstrmatch.js:31-36 | and is an error when none is open |
| `PatternLaws.Again` | lua/cartograph/luajs/lstrmatch.js:113-124 | `%1` to `%9` match the bytes of a closed capture again, anything else they name is an error |
| `PatternLaws.NoSet` | lua/cartograph/luajs/lstrmatch.js:65-80 | a set that never closes is an error |
| `PatternLaws.NoPattern` | lua/cartograph/luajs/lstrmatch.js:46-80 | so are a last `%`, a `%b` without two bytes and a `%f` without a set |
| `PatternBounds.MatchWithin` | lua/cartograph/luajs/lstrmatch.js:157-249 | without back-references to position captures every result lies between its start and the end of the subject, closed captures inside the subject |
| `PatternBounds.MatchNotBeyond` | lua/cartograph/luajs/lstrmatch.js:157-249 | no pattern at all takes a result past the end of the subject |
| `PatternBounds.PositionReferenceExample` | lua/cartograph/luajs/lstrmatch.js:119-124 | a back-reference to a position capture goes on two bytes earlier: the pattern `()%1` ends two bytes before its start |
| `StringLib.LeftmostIsFirst` | lua/cartograph/luajs/pack.js:408-421 | the search finds the first result of the leftmost start that has one, and nowhere means there is none |
| `StringLib.FindAux` | lua/cartograph/luajs/pack.js:396-422 | `find` and `match` answer with that result and its captures, for every start and anchor, or with the first place of a fixed string; the nesting error only for patterns longer than the limit |
| `StringLaws.FindAndMatch` | lua/cartograph/luajs/pack.js:396-422 | for every first place with a result, `find` answers the places of its first and last byte and the captures, `match` the captures or the bytes |
| `StringLaws.AnchoredFind` | lua/cartograph/luajs/pack.js:408-421 | for a pattern with `^` they look at one place only |
| `StringLaws.CapturesReturned` | lua/cartograph/luajs/lstrmatch.js:251-268 | the captures returned are in order each capture's bytes or place, the whole match where there are none, and an error for one left open |
| `StringLib.LiteralMatch` | lua/cartograph/luajs/lstrmatch.js:157-249 | a pattern of plain bytes matches exactly where those bytes stand |
| `StringLib.ShortcutIsMatch` | lua/cartograph/luajs/pack.js:394-407 | for a pattern without magic bytes, NUL and closing parenthesis the search for a fixed string answers what the matcher would |
| `StringLib.Gmatch.Next` | lua/cartograph/luajs/pack.js:431-446 | each call gives the next leftmost match and where the one after it starts |
| `StringLib.GmatchProgress` | lua/cartograph/luajs/pack.js:437-438 | every call moves on, even after an empty match, and never over the end |
| `StringLib.AddValue` | lua/cartograph/luajs/pack.js:448-467 | what a match is replaced by: an expanded string, the answer of a table or function to its captures, or itself for nil and false |
| `StringLaws.MatchReference` | lua/cartograph/luajs/pack.js:448-457 | `%0`, and `%1` without captures, stand for the match |
| `StringLaws.CaptureReference` | lua/cartograph/luajs/pack.js:448-457 | `%1` to `%9` stand for the bytes of that capture or the numeral of its place, and are the named error when it is open or not there |
| `StringLaws.PlainBytes` | lua/cartograph/luajs/pack.js:448-457 | any other byte stands for itself, with or without a `%` before it |
| `StringLaws.ReplacementParts` | lua/cartograph/luajs/pack.js:448-457 | a replacement string stands for what its parts stand for one after the other, wherever it is cut outside an escape |
| `StringLaws.AnswerReplaces` | lua/cartograph/luajs/pack.js:458-467 | a table is asked for the first capture, a function is called with all of them, and what their answer makes of the match |
| `StringLib.Gsub` | lua/cartograph/luajs/pack.js:468-491 | the loop with its buffer is the substitution of each match from left to right, at most `max` of them |
| `StringLaws.GsubReplaces` | lua/cartograph/luajs/pack.js:468-491 | the answer is the subject with its successive leftmost matches replaced and all else copied, as many as are counted, and no more match is left below the limit |
| `StringLaws.GsubAnchored` | lua/cartograph/luajs/pack.js:468-491 | with `^` at most the match at the start is replaced |
| `StringLaws.GmatchOnward` | lua/cartograph/luajs/pack.js:437-438 | `gmatch` searches on from where `gsub` does |
| `StringLib.GsubIdentity` | lua/cartograph/luajs/pack.js:448-491 | replacing by `%0`, or by a table or function that gives nil, returns `s` for every pattern that raises no error |
| `TemplateExecutor.Executor.Explore` | tools/helmprov/tpl/prov.go:177-212 | an explored arm changes the record and nothing else: output, variables, spans, guards and depth are as before, whatever stops it |
| `TemplateExecutor.Executor.WalkIfOrWith` | tools/helmprov/tpl/exec.go:346-384 | if and with take, record and explore the arms `TemplateRun` says, and pop to their mark |
| `TemplateExecutor.Executor.WalkRange1` | tools/helmprov/tpl/exec.go:441-594 | every iteration sets, runs and pops; break ends the range, continue the iteration |
| `TemplateExecutor.Executor.WalkTemplate` | tools/helmprov/tpl/exec.go:596-615 | a called template sees no variable but its own dot, and the caller's come back |
| `TemplateExecutor.Execute` | tools/helmprov/tpl/exec.go:214-245 | the executor with its mutable stack, writers and records does exactly what `Render` says, and ends with no guard and at depth zero |
| `TemplateLaws.PipelineLaw` | tools/helmprov/tpl/exec.go:623-644 | a pipeline sees the last variable of each name; `:=` puts its variables on top, `=` sets the last of the name |
| `TemplateLaws.ListLaw` | tools/helmprov/tpl/exec.go:318-321 | a list is its nodes in turn, output, spans and records in that order, up to the first that stops |
| `TemplateLaws.LeafLaw` | tools/helmprov/tpl/exec.go:311-342 | text writes itself with its span, a break or continue only stops |
| `TemplateLaws.ActionLaw` | tools/helmprov/tpl/exec.go:293-310 | an action prints its value unless it declares, and its span names the paths read |
| `TemplateLaws.ChoiceLaw` | tools/helmprov/tpl/exec.go:346-384 | a true `with` runs its list on the value, a true `if` on the dot, and a false one the else-list on the dot |
| `TemplateLaws.ConditionLaw` | tools/helmprov/tpl/exec.go:346-353 | a condition that fails or has no truth stops the render with its reads recorded |
| `TemplateLaws.ElseExplored` | tools/helmprov/tpl/exec.go:362-369 | after a then-arm that ends normally the else-arm is explored: what it runs on, its reads behind the taken ones, and its entry with the guard's text and its cleaned output |
| `TemplateLaws.ThenExplored` | tools/helmprov/tpl/exec.go:370-383 | after an else-arm, or none, the then-arm is; a `with` body on the value tested |
| `TemplateLaws.NothingExplored` | tools/helmprov/tpl/prov.go:177-188 | and nothing in every other case: an arm that stops, no other arm, sixteen guards, or a guard already around |
| `TemplateLaws.IterationLaw` | tools/helmprov/tpl/exec.go:454-488 | a loop runs its body on each element in order, the index below the element on the stack, and goes on after a normal end or a continue only |
| `TemplateLaws.RangeLaw` | tools/helmprov/tpl/exec.go:441-594 | a range is its iterations or, over nothing, its else-list; a break ends it normally and the stack is cut back |
| `TemplateLaws.RangeFailure` | tools/helmprov/tpl/exec.go:441-594 | so does a range over what cannot be iterated over |
| `TemplateLaws.RangeElseExplored` | tools/helmprov/tpl/exec.go:423-432 | after a range that iterated the else-list is explored on the dot |
| `TemplateLaws.RangeBodyExplored` | tools/helmprov/tpl/exec.go:433-439 | after one that did not the body is, on no value and with its variables bound to no value |
| `TemplateLaws.RangeNothingExplored` | tools/helmprov/tpl/prov.go:177-188 | and nothing when there is no such arm or it is not entered |
| `TemplateLaws.CallLaw` | tools/helmprov/tpl/exec.go:596-615 | a template runs on its argument with `$` alone on its stack, one deeper, behind the output so far |
| `TemplateLaws.CallFailure` | tools/helmprov/tpl/exec.go:596-605 | a template that is not defined, the 100001st deep and an argument that fails stop the render |
| `TemplateInvisible.ExplorationInvisible` | tools/helmprov/tpl/prov.go:177-212 | with exploring on, the outcome, output, spans, variables and taken reads are those with it off, and every other read is marked untaken |
| `TemplateInvisible.InnermostGuard` | tools/helmprov/tpl/prov.go:114-126 | the reads marked with an arm's guard are exactly those the arm itself makes; guards stay distinct and at most sixteen |
| `TemplateScope.LexicalScoping` | tools/helmprov/tpl/exec.go:52-93 | the push-down stack gives the outcome, output, spans and taken reads of an interpreter that passes immutable environments, whether or not it explores |
| `TemplateScope.StackRestored` | tools/helmprov/tpl/exec.go:346-594 | every if, with and range, however it is left, ends with the variables it began with, and no range ends in a break |
| `TemplateBreaks.ChoiceBreaks` | tools/helmprov/tpl/exec.go:346-384 | an if or with breaks if and only if the arm its condition picks does |
| `TemplateBreaks.IterationBreaks` | tools/helmprov/tpl/exec.go:454-483 | an iteration breaks if and only if its body, run with the loop variables set, does |
| `TemplateBreaks.IterateBreaks` | tools/helmprov/tpl/exec.go:448-483 | a loop stops at a break if and only if an iteration it reaches breaks |
| `TemplateBreaks.ElseBreakSwallowed` | tools/helmprov/tpl/exec.go:441-448 | with nothing to range over, a range stops as its else arm does if and only if that does not break |
| `TemplateBreaks.ElseBreakExample` | tools/helmprov/tpl/exec.go:441-448 | a template whose inner break ends neither round of the outer range |
| `TemplateSpans.SpansTile` | tools/helmprov/tpl/exec.go:289-342 | the spans of a render are contiguous, in order, and cover every byte |
| `TemplateFinish.Finish` | tools/helmprov/tpl/prov.go:131-161 | each span's text in the result is its raw text without the removed bytes, and spans that tiled still tile |
| `TreeWalk.Walk` | lua/cartograph/luajs/tsbridge.c:70-91 | the cursor loop with its growing stack writes the lines of every node once in preorder, each with its parent's id |
| `TreeClient.ParentsFirst` | lua/cartograph/luajs/tsbridge.c:70-91 | every parent id is smaller than its node's, and only the root has none |
| `TreeClient.MkTree` | lua/cartograph/luajs/pack.js:1217-1243 | the client's arrays hold each line's facts and, for each node, its children in order |
| `TreeClient.Rebuilt` | lua/cartograph/luajs/pack.js:1217-1243 | from the lines of a tree those arrays are that tree |
| `TreeClient.LinesDetermine` | lua/cartograph/luajs/tsbridge.c:79-81 | trees with the same lines are alike in everything the lines carry |
| `TreeClient.SendTree` | lua/cartograph/luajs/pack.js:1217-1243 | walked, sent and rebuilt, the client has the server's tree |
| `NodeIndex.Index.Add` | lua/cartograph/luajs/tsbridge.c:56-60 | linear probing stores the id under its key; the probe ends because a cell is free |
| `NodeIndex.Index.IdOf` | lua/cartograph/luajs/tsbridge.c:63-68 | a lookup gives the last id added under the key, or -1 if there is none |
| `NodeIndex.IndexNodes` | lua/cartograph/luajs/tsbridge.c:53-62 | the index of a walk holds every node's key, in a table at most half full |
| `NodeIndex.IdsInvert` | lua/cartograph/luajs/tsbridge.c:53-68 | with distinct keys the id found for a node is its preorder number |
| `TreeServer.Server.Victim` | lua/cartograph/luajs/tsbridge.c:160-163 | a slot to parse into: a free one if there is one, else that of the least recently touched tree |
| `TreeServer.Server.Parse` | lua/cartograph/luajs/tsbridge.c:148-170 | a new id, its tree the most recently touched, and only the oldest of a full table gone |
| `TreeServer.Server.Ask` | lua/cartograph/luajs/tsbridge.c:98-101 | a request is answered from the tree made under its id or with MISS, and touches that tree only |
| `TreeServer.Server.Free` | lua/cartograph/luajs/tsbridge.c:92-97 | only the named tree goes |
| `TreeRecency.RunInOrder` | lua/cartograph/luajs/tsbridge.c:98-101 | over every run of openings, uses and closings the trees stand in the order of their last use |
| `TreeRecency.LeastRecentlyUsed` | lua/cartograph/luajs/tsbridge.c:156-161 | so what a full table loses is the tree whose last use is longest ago |
| `TreeRecency.Stays` | lua/cartograph/luajs/tsbridge.c:156-161 | a tree that is not closed stays as long as fewer than 512 others are named between its uses |
| `TreeRequests.TsTree` | lua/cartograph/luajs/pack.js:1250-1258 | the client's answer is that of its own source's tree, re-parsed or not; server and tree object change as one step of the run says |
| `TreeRequests.StepConsistent` | lua/cartograph/luajs/pack.js:1250-1258 | every event keeps ids distinct and each handle naming a tree of its source |
| `TreeRequests.EvictionTransparent` | lua/cartograph/luajs/pack.js:1250-1258 | over every run the replies are those of a server that never evicts |
| `TreeRuns.Perform` | lua/cartograph/luajs/pack.js:1250-1258 | any sequence of events on a real server and its tree objects gets the replies of a server that never evicts |
| `LuaTables.LuaTable.RawGet` | lua/cartograph/luajs/pack.js:70-75 | a read finds what the table holds under the key, whichever part holds it |
| `LuaTables.LuaTable.RawSet` | lua/cartograph/luajs/pack.js:106-119 | a write changes that key and no other, in every shape; nil and NaN keys raise and change nothing |
| `LuaTables.LuaTable.SetField` | lua/cartograph/luajs/pack.js:114-115 | a string key of a record, which keeps its own keys in order: array-like numerals first and ascending |
| `LuaTables.FieldOrder` | lua/cartograph/luajs/pack.js:114-115 | setting or deleting a key leaves the order of the others |
| `LuaTables.FieldAdded` | lua/cartograph/luajs/pack.js:114-115 | a new key that is not array-like comes last |
| `TableBorder.MBorder` | lua/cartograph/luajs/pack.js:125-125 | the search extends the cached border to the first missing key and remembers it |
| `TableBorder.Length` | lua/cartograph/luajs/pack.js:127-133 | `#` in each shape |
| `TableBorder.LengthAfter` | lua/cartograph/luajs/pack.js:124-133 | after a write the length is a border if and only if the write does not spoil the cache |
| `TableBorder.SpoiledExample` | lua/cartograph/luajs/pack.js:126-126 | deleting key 0 leaves a length that is no border |
| `TableBorder.Perform` | lua/cartograph/luajs/pack.js:106-133 | commands on a real table, one after another, make a run in the sense of the next two |
| `TableBorder.EveryLengthIsABorder` | lua/cartograph/luajs/pack.js:122-133 | over every run whose deletes are of positive integers or keys that are not numbers, each length is a border |
| `TableBorder.ShapeIsInvisible` | lua/cartograph/luajs/pack.js:50-119 | over every run a key holds what was stored last under it, in every shape |
| `TablePairs.Pairs.Call` | lua/cartograph/luajs/pack.js:281-288 | each call of the iterator gives the next entry of the order |
| `TablePairs.Next` | lua/cartograph/luajs/pack.js:294-311 | `next` gives the entry after a key in that order, and raises for a key that is not there |
| `TablePairs.NextVisitsAll` | lua/cartograph/luajs/pack.js:281-311 | from nil on, `next` visits each key that holds something once |
| `TableInsert.InsertAt` | lua/cartograph/luajs/pack.js:344-344 | on a hole-free sequence the value comes to stand at its place, the others one further, other keys untouched |
| `TableInsert.Append` | lua/cartograph/luajs/pack.js:344-344 | without a position it comes last |
| `TableInsert.RemoveAt` | lua/cartograph/luajs/pack.js:345-345 | the value at the place comes back and the others close up |
| `TableInsert.RemoveLast` | lua/cartograph/luajs/pack.js:345-345 | without a position the last one comes back |
| `TableInsert.InsertThenRemove` | lua/cartograph/luajs/pack.js:344-345 | removing what was inserted restores every key and gives the value back |
| `MsgPackCodec.MpEncode` | lua/cartograph/luajs/pack.js:1082-1117 | the encoder with its buffer writes the encoding, and only that |
| `MsgPackCodec.MpDecode` | lua/cartograph/luajs/pack.js:1036-1081 | the decoder with its cursor reads the value the bytes begin with, or raises its error |
| `MsgPackRoundTrip.RoundTrip` | lua/cartograph/luajs/pack.js:1036-1117 | decoding an encoding followed by any bytes stops where it ends, with the sequence or map that was written |
| `MsgPackRoundTrip.ShortestInt` | lua/cartograph/luajs/pack.js:1092-1099 | no bytes that decode to an integer are shorter than its encoding |
| `MsgPackRoundTrip.ShortestStr` | lua/cartograph/luajs/pack.js:1103-1103 | nor are any that decode to a string |
| `MsgPackFormat.IntForms` | lua/cartograph/luajs/pack.js:1092-1099 | the bytes of an integer as the MessagePack specification has them: itself, or its tag and its two's complement, most significant byte first |
| `MsgPackFormat.LengthForms` | lua/cartograph/luajs/pack.js:1086-1086 | those of the length of a string, an array and a map |
| `MsgPackFormat.ArrayExactly` | lua/cartograph/luajs/pack.js:1105-1112 | a table is written as an array if and only if its keys are 1 to its size |
| `MsgPackFormat.ValueForms` | lua/cartograph/luajs/pack.js:1087-1113 | every kind of value begins with its own bytes |
| `MsgPackNullKeys.SameUnlessNullKey` | lua/cartograph/luajs/pack.js:1036-1117 | what comes back is the same key/value map if and only if no table in it has a vim.NIL key |
| `MsgPackNullKeys.NullKeyExample` | lua/cartograph/luajs/pack.js:1042-1042 | the table `{[vim.NIL] = true}` comes back empty |
| `MsgPackCodec.SendAndReceive` | lua/cartograph/luajs/pack.js:1036-1117 | the same for the two methods, one after the other |

## Left out

- `ScanDec.StrscanDec` says nothing of a ring that is really full, which cannot happen up to 320 digits; `full` is then
  all that is known.
- `ScanDec.StrscanDec` describes an emptied ring only when it was blank before: `$alloca` does not clear it, and what is
  then stored depends on what an earlier call left there.
- `ScanDec.StrscanDec`, `ScanDec.FastPath` and `ScanText.StrscanHex` have the double arm only: the integer formats 3 to
  6 and the option bits that choose them (0x02, 0x10), which come with C suffixes, are left out.
- Reading: octal, binary, the imaginary and integer suffixes, signs and prefixes of hexadecimal text, `inf` and `nan`.
- `StrFmtFixed.WfnumFixed` and `StrFmtDouble.WfnumDouble` are for exponents from -540 on, the range in which the 64
  limbs hold every digit, so for zero and magnitudes from 2^-488 on; the arm of `nd_div2k` for more is empty in the
  source. Buffers that are too small are left out.
- Printing: `%a`, `%e` and `%g`, the last two resting on hardware multiplication; `StrFmtFixed.WfnumFixed` has the
  flags as booleans.
- `LStrMatch.MatchState.Match` raises "too complex" where the C recursion does; `StringLib.FindAux`, `StringLib.Gsub`
  and `StringLib.Gmatch.Next` allow that error whenever the matcher may raise it.
- Strings: `StringLib.Gsub` takes a replacement function as a function of the captures and a table as a function of the
  key: side effects and errors of theirs, and the conversion of numbers to strings on the way in, are left out.
- `TemplateExecutor.Execute`: the evaluation of commands, fields and functions, printing and the order of a map's keys
  come from the host; symbolic values, holes, `recordDot`, file names and locations of errors are not modelled; the
  copy of the state for a called template is modelled by saving and restoring the variables, the depth and the dot.
- `TemplateInvisible.InnermostGuard` has the guard of a place as text, as the code does.
- `TreeWalk.Walk` writes lines as records: their text, and the exchange over files, are left out, as are languages,
  queries, edits and the library itself; parsing and answering are functions of the source and the request.
- `TreeClient.MkTree` has one array of records where the code has one array for each fact.
- `TreeServer.Server.Parse`, `TreeRequests.TsTree` and `TreeRuns.Perform` require the 64-bit clock not to be at its end.
- `TreeServer.Server.Ask` is a request that names a tree, of any kind.
- `LuaTables.LuaTable.RawSet`: number keys are finite reals or NaN. Infinities are left out; deleting -Infinity, a number
  at or below every border, sets the cached border to -Infinity. The host's limit on arrays is the precondition.
- `TablePairs.Pairs.Call` walks the table as it was when the walk began: writes during a walk are left out.
- `TableInsert.InsertAt` and `TableInsert.RemoveAt` are for positions inside a sequence without holes.
- Tables: metatables, `table.sort`, `table.concat`, `ipairs`, `unpack`.
- `MsgPackCodec.MpEncode`: Lua nil, which is written as vim.NIL is and comes back as vim.NIL, is no value of the model.
- `MsgPackCodec.MpEncode` and `MsgPackCodec.MpDecode`: floats (a float's tag decodes to an error of its own), the
  extension types, and values that cannot be encoded.
- `MsgPackRoundTrip.RoundTrip`: a key that is a table is a new table each time, as it is for the code.
- `pack.js` beyond these: files, processes, the editor's functions, JSON.
- `libmpow.js`: an analysis of floating-point error, not an exact property.
