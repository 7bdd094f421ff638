# Dotted-quad parsing and conversion, modelled in Dafny

This project models the two demo programs of the repository that carry logic.

`demos/src/bin/type_inference.rs` parses dotted-quad address literals separated by single spaces
(doubled spaces give empty candidates, which are dropped; a tab or newline does not separate candidates).
Each token becomes an `IPv4` record of four bytes. Tokens that do not parse are dropped
silently. Every record is then converted to one representation chosen by the caller: a
big-endian packed `u32`, its decimal text, or a plain 4-tuple.

`demos/src/bin/explicit_lifetime.rs` selects the larger of two values under `Ord`.

Everything in the core is pure, so the model uses datatypes, recursive functions and lemmas.

Files and modules:

- `wrappers.dfy` (`Wrappers`): `Option`, what remains of a `Result` once `.ok()` has discarded the error.
- `text_split.dfy` (`TextSplit`): Rust's `str::split` for a one-character pattern.
  Splitting `""` yields one empty piece, and adjacent delimiters yield empty pieces.
  `Join` is not used by the source; it is the reference definition against which `Split` is proved.
- `iterators.dfy` (`Iterators`): the iterator adapters `filter_map` and `take`, each followed by `collect`, on sequences.
  Both `from_str` and `parse_ips` use `filter_map`.
- `decimal.dfy` (`Decimal`): `u8::from_str` and the `{}` formatting of an integer.
  Parsing accepts one or more ASCII digits, after at most one leading `+`, with a value of at most 255.
  Leading zeros are accepted. The empty string, a lone `+` and a `-` sign are rejected.
- `type_inference.dfy` (`TypeInference`): `IPv4`, `IPv4::from_str`, the three `From<IPv4>`
  conversions and `parse_ips`.
  Rust picks the conversion from the requested result type. Here the caller passes a `Target` tag
  (`U32`, `Text`, `Tuple`) instead, and every output `Converted` value carries that same tag.
- `explicit_lifetime.dfy` (`ExplicitLifetime`): `max`, generic over a relation `le` that is a
  total preorder. This is what `Ord` guarantees: two values can compare equal without being identical.

`from_str` follows the code exactly. It splits on `.` and drops the groups that fail to parse.
Only then does it keep the first four survivors and require that there are four.
So `"1.x.2.3.4"`, `"1..2.3.4"` and `"1.2.3.4.5"` all parse to `(1, 2, 3, 4)`, and `"256.0.0.0"` is rejected.
This is not the stricter rule in which the first four positional groups must each parse.
The code filters before it takes four, and `u8::from_str` accepts one leading `+`; the model does the same.

Shifts `(x as u32) << k` are written as `x * 2^k`, because no bit is shifted out of a byte.
The extraction `(v >> k) & 0xFF` is written as `(v / 2^k) % 256`.
The result type `u32` is a subset type, so the packing is verified to stay below 2^32.

## Model

| member | source | states |
|---|---|---|
| `TextSplit.Split` | demos/src/bin/type_inference.rs:9 | splitting always gives at least one piece, even for empty text |
| `TextSplit.SplitPiecesLackDelimiter` | demos/src/bin/type_inference.rs:9 | no piece contains the delimiter |
| `TextSplit.SplitCount` | demos/src/bin/type_inference.rs:9 | there is exactly one more piece than there are delimiters in the input |
| `TextSplit.SplitWithoutDelimiter` | demos/src/bin/type_inference.rs:23 | text without the delimiter is a single candidate, itself |
| `TextSplit.SplitAppend` | demos/src/bin/type_inference.rs:23 | the pieces of `a + d + b` are the pieces of `a` followed by those of `b` |
| `TextSplit.SplitAround` | demos/src/bin/type_inference.rs:9 | a delimiter-free piece between two delimiters comes out as a piece of its own, between the pieces of what precedes and what follows it |
| `TextSplit.SplitJoin` | demos/src/bin/type_inference.rs:9 | splitting undoes joining, for a non-empty list of pieces none of which contains the delimiter |
| `TextSplit.JoinSplit` | demos/src/bin/type_inference.rs:9 | joining the pieces with the delimiter gives back the input, so no character is lost |
| `Decimal.ParseU8` | demos/src/bin/type_inference.rs:10 | a string that parses is non-empty and holds only ASCII digits, except for an optional leading `+` |
| `Decimal.Render` | demos/src/bin/type_inference.rs:47 | `{}` gives canonical decimal digits (no padding, no leading zero unless the number is 0) that denote the number |
| `Decimal.ParseRender` | demos/src/bin/type_inference.rs:47 | parsing the decimal text of a byte gives the byte back |
| `Decimal.RenderValue` | demos/src/bin/type_inference.rs:47 | every canonical digit string is the rendering of its own value, so rendering is injective |
| `Decimal.ParseCanonical` | demos/src/bin/type_inference.rs:10 | a canonical digit string parses to `n` if and only if it is the rendering of `n` |
| `Decimal.ParseU8LeadingZero` | demos/src/bin/type_inference.rs:10 | leading zeros are accepted: a `0` in front of any non-empty text that does not start with `+` never changes the outcome |
| `Decimal.ParseU8Plus` | demos/src/bin/type_inference.rs:10 | one leading `+` is accepted and never changes the outcome, unless the rest starts with another `+` |
| `Decimal.ParseU8Examples` | demos/src/bin/type_inference.rs:10 | `"007"` gives 7, `"+5"` gives 5 and `"255"` gives 255, while `""`, `"+"`, `"-5"` and `"++5"` fail |
| `Decimal.ParseU8Word` | demos/src/bin/type_inference.rs:10 | `"x"` fails |
| `Decimal.ParseU8TooLarge` | demos/src/bin/type_inference.rs:10 | `"256"` fails: it is above 255 |
| `Iterators.FilterMap` | demos/src/bin/type_inference.rs:10 | `filter_map` never yields more values than there are elements |
| `Iterators.FilterMapSingle` | demos/src/bin/type_inference.rs:24 | one element yields its value if `f` gives one, and nothing otherwise |
| `Iterators.FilterMapAppend` | demos/src/bin/type_inference.rs:24 | filtering works element by element: the values from `xs + ys` are those from `xs` followed by those from `ys` |
| `Iterators.FilterMapSkip` | demos/src/bin/type_inference.rs:10 | an element for which `f` gives nothing contributes nothing and leaves the values of its neighbours unchanged |
| `Iterators.FilterMapAllSome` | demos/src/bin/type_inference.rs:10 | when `f` gives a value for every element, the values line up one for one with the elements |
| `Iterators.Take` | demos/src/bin/type_inference.rs:11 | `take(n)` gives a prefix of length `min(n, len)` |
| `TypeInference.FromStr` | demos/src/bin/type_inference.rs:8-17 | parsing succeeds if and only if at least four `.`-separated pieces parse as `u8`, and the result is the first four such values in order |
| `TypeInference.FromStrBySurvivors` | demos/src/bin/type_inference.rs:9-17 | the outcome depends only on the values that survive filtering |
| `TypeInference.FromStrSkipsRejectedPiece` | demos/src/bin/type_inference.rs:9-11 | a group that fails to parse is skipped rather than fatal, and removing it never changes the outcome |
| `TypeInference.FromStrIgnoresTail` | demos/src/bin/type_inference.rs:11 | once four groups have parsed, anything after them is ignored |
| `TypeInference.FromStrOfGroups` | demos/src/bin/type_inference.rs:9-17 | if the first four groups each parse, the address is made of those four values |
| `TypeInference.FromStrDropsRejectedFirst` | demos/src/bin/type_inference.rs:9-11 | a leading group that fails to parse is skipped, so the outcome is that of the rest of the text |
| `TypeInference.FromStrFewGroups` | demos/src/bin/type_inference.rs:9-16 | text with fewer than three dots never parses, because it has fewer than four groups |
| `TypeInference.FromStrPlainExample` | demos/src/bin/type_inference.rs:8-17 | `"1.2.3.4"` parses to `(1, 2, 3, 4)` |
| `TypeInference.FromStrExtraGroupExample` | demos/src/bin/type_inference.rs:11 | `"1.2.3.4.5"` parses to `(1, 2, 3, 4)`: the fifth group is ignored |
| `TypeInference.FromStrSkipsWordExample` | demos/src/bin/type_inference.rs:10-11 | `"1.x.2.3.4"` parses to `(1, 2, 3, 4)` |
| `TypeInference.FromStrSkipsEmptyExample` | demos/src/bin/type_inference.rs:10-11 | `"1..2.3.4"` parses to `(1, 2, 3, 4)` |
| `TypeInference.FromStrRejectExample` | demos/src/bin/type_inference.rs:14-16 | `"256.0.0.0"` fails: only three of its groups are bytes |
| `TypeInference.FromStrEmptyExample` | demos/src/bin/type_inference.rs:14-16 | `""` fails |
| `TypeInference.PackUnpack` | demos/src/bin/type_inference.rs:35-43 | extracting bytes `(v >> 24) & 0xFF` down to `v & 0xFF` from the packed value recovers the four components |
| `TypeInference.UnpackPack` | demos/src/bin/type_inference.rs:35-43 | every `u32` is the packing of the four bytes extracted from it, so packing is onto |
| `TypeInference.ToU32Injective` | demos/src/bin/type_inference.rs:35-43 | distinct addresses pack to distinct `u32` values |
| `TypeInference.ToTextGroups` | demos/src/bin/type_inference.rs:45-49 | the text holds only digits and dots, and its `.`-pieces are the unpadded decimal renderings of the four components in order |
| `TypeInference.TextRoundTrip` | demos/src/bin/type_inference.rs:45-49 | parsing the text of an address with `from_str` gives back the same address |
| `TypeInference.ToTextInjective` | demos/src/bin/type_inference.rs:45-49 | distinct addresses have distinct texts |
| `TypeInference.ToTextExample` | demos/src/bin/type_inference.rs:47 | `(192, 168, 0, 1)` is written `"192.168.0.1"` |
| `TypeInference.ToTuple` | demos/src/bin/type_inference.rs:51-55 | the tuple holds the four components unchanged and in order |
| `TypeInference.Convert` | demos/src/bin/type_inference.rs:25 | the converted value is in the representation the caller asked for |
| `TypeInference.ConvertInjective` | demos/src/bin/type_inference.rs:35-55 | no conversion loses information: equal outputs come from equal addresses |
| `TypeInference.ConvertAll` | demos/src/bin/type_inference.rs:25 | the output has one value per address, in order, each the conversion of its address |
| `TypeInference.ParseIps` | demos/src/bin/type_inference.rs:21-27 | there are no more outputs than space-separated candidates, and every output is in the requested representation |
| `TypeInference.ParseIpsAppend` | demos/src/bin/type_inference.rs:23-26 | the output for `a + " " + b` is the output for `a` followed by that for `b` |
| `TypeInference.ParseIpsCandidate` | demos/src/bin/type_inference.rs:24-25 | a single candidate yields its converted address if it parses, and nothing otherwise |
| `TypeInference.ParseIpsDropsRejected` | demos/src/bin/type_inference.rs:24 | a rejected candidate contributes nothing and does not affect the candidates around it |
| `TypeInference.ParseIpsAllAccepted` | demos/src/bin/type_inference.rs:21-27 | when every candidate is a valid address, the output has one entry per candidate, in input order |
| `TypeInference.FromStrOfText` | demos/src/bin/type_inference.rs:45-49 | the text of an address contains no space and parses back to that address |
| `TypeInference.ParseIpsOfText` | demos/src/bin/type_inference.rs:21-27 | the text of one address, given alone, yields exactly that address converted |
| `TypeInference.ParseIpsFive` | demos/src/bin/type_inference.rs:23-26 | five space-separated candidates are handled one by one, and their outputs are concatenated in order |
| `TypeInference.ParseIpsOfTexts` | demos/src/bin/type_inference.rs:21-27 | parsing a space-joined list of address texts gives back exactly those addresses, in order, converted |
| `TypeInference.ParseIpsEmpty` | demos/src/bin/type_inference.rs:23-26 | empty input yields empty output for every representation |
| `TypeInference.ParseIpsSample` | demos/src/bin/type_inference.rs:30-31 | the program's input, written as its five tokens joined by single spaces, converted to `u32` gives `[0, 2130706433, 3232235521, 16843009]`: the first token is dropped |
| `ExplicitLifetime.Max` | demos/src/bin/explicit_lifetime.rs:1-7 | the result is one of the two arguments and at least both of them; it is `first` when `first >= second` and `second` otherwise |
| `ExplicitLifetime.MaxTieGoesToFirst` | demos/src/bin/explicit_lifetime.rs:2-3 | when the two arguments compare equal, whichever comes first is returned |
| `ExplicitLifetime.MaxExample` | demos/src/bin/explicit_lifetime.rs:10-11 | `max(5, 10)` is `10` |

## Left out

- `demos/src/bin/result1.rs`, `result2.rs` and `result3.rs` are left out. Their only logic is a call to `rand::random()` plus printing, so their results are nondeterministic.
- The `main` functions and their `println!` output are left out because they are I/O. The input that `type_inference.rs` feeds to `parse_ips` is kept, as `ParseIpsSample`.
- The `#[cfg(test)]` module of `type_inference.rs` is left out: it computes a shift and asserts nothing.
- The trait machinery (`FromStr`, `From`/`Into`), borrow lifetimes and `Vec` allocation are not modelled. Generic dispatch is replaced by the `Target` tag, references by values, and iterator chains by recursive functions over sequences.
- Laziness of the iterator chains is not modelled: `take(4)` stops pulling pieces early, but since parsing has no side effects the result is the same.
- The `ParseIntError` kinds are not modelled. The source discards them with `.ok()`, so only success or failure is kept.
- `TypeInference.ToU32` has no `ensures`: its `u32` result type carries the no-overflow bound. What the packing means is stated by `PackUnpack`, `UnpackPack` and `ToU32Injective`.
- `TypeInference.ToText` has no `ensures`: what the text is, and that it parses back, are stated by `ToTextGroups` and `TextRoundTrip`.
