# CombinedTool: counter, adder, IPv4 validator and CIDR checker

`src/main.rs` serves one tool object, `CombinedTool`, over an MCP server.
The object has four capabilities:

- a counter (`increment`, `decrement`, `get_value`) held in a signed 32-bit field that the calls update in place;
- `add`, the sum of two signed 32-bit integers;
- `is_valid_ipv4`, which says whether a string parses as a dotted-decimal IPv4 address;
- `is_ip_in_cidr`, which says whether an IPv4 address lies in a range written as `a.b.c.d/len`.

This project models that core in Dafny. Each module follows one part of it:

- `Counter` holds the class `CombinedTool`. Its `count` field is changed in place by `Increment` and `Decrement`. Its arithmetic is two's-complement wrap-around on 32 bits.
- `Text` models the pieces of the Rust standard library the tool relies on. These are `str::split` on one character, decimal digits, and `str::parse::<u8>`.
- `Net` models `Ipv4Addr`: its `from_str` parser and the dotted-decimal form that parser accepts.
- `Bits` holds the `u32` operations the range check uses: shift, complement, and, or. They work on naturals below 2^32. `Bits` also holds the arithmetic facts about them.
- `Address` holds the two IP operations. They are the octet fold into a `u32`, the prefix mask, the masked comparison, and `is_ip_in_cidr` with each of its early `false` returns.
- `Examples` states sample calls as lemmas.

The main results are these:

- `is_valid_ipv4` accepts exactly the strings that are the dotted-decimal form of some address.
- `is_ip_in_cidr` is true exactly when both texts are well formed and the address agrees with the network address on the first prefix-length bits. Every malformed input gives `false`.
- The mask has exactly the top prefix-length bits set.
- A `/0` range contains every address.
- A `/32` range contains only its own network address.
- The host bits of the network address never matter.
- Any sequence of counter calls moves the counter by the number of increments minus the number of decrements, modulo 2^32.

## Model

| member | source | states |
|---|---|---|
| Counter.CombinedTool.constructor | src/main.rs:119 | a fresh tool's counter is 0 |
| Counter.CombinedTool.Increment | src/main.rs:20-23 | the counter becomes its old value plus one, wrapped to i32; the value returned is the new counter |
| Counter.CombinedTool.Decrement | src/main.rs:26-29 | the counter becomes its old value minus one, wrapped to i32; the value returned is the new counter |
| Counter.CombinedTool.GetValue | src/main.rs:32-34 | returns the counter and changes nothing |
| Counter.Step | src/main.rs:20-29 | one call moves the counter by one; incrementing i32::MAX gives i32::MIN and decrementing i32::MIN gives i32::MAX |
| Counter.IncrementThenDecrement | src/main.rs:20-29 | an increment followed by a decrement leaves the counter as it was and returns the original value |
| Counter.Wrap | src/main.rs:8 | the i32 result is congruent to the exact value modulo 2^32 and equals it when it fits |
| Counter.WrapThenAdd | src/main.rs:21 | wrapping an intermediate result does not change the final wrapped result |
| Counter.IncrThenDecr | src/main.rs:20-29 | a decrement undoes an increment for every counter value, including at the wrap boundary |
| Counter.RunIsNetDelta | src/main.rs:20-29 | any sequence of calls leaves the counter at the start value plus increments minus decrements, wrapped |
| Counter.BalancedRunRestores | src/main.rs:20-29 | a sequence with as many increments as decrements restores the counter |
| Counter.Add | src/main.rs:41-43 | the i32 sum is congruent to a + b modulo 2^32 and equals a + b when that fits |
| Counter.AddCommutative | src/main.rs:41-43 | add(a, b) == add(b, a) |
| Text.Split | src/main.rs:76 | splitting always gives at least one piece, and no piece contains the separator |
| Text.JoinSplit | src/main.rs:76 | joining the pieces with the separator gives back the text |
| Text.SplitJoin | src/main.rs:76 | splitting a join of separator-free pieces gives back the pieces |
| Text.SplitNone | src/main.rs:76-79 | text without the separator splits into one piece, itself |
| Text.Show | src/main.rs:89 | the decimal form of n is canonical and reads back as n |
| Text.ShowValue | src/main.rs:89 | every canonical decimal text is the form of its value |
| Text.ParseU8 | src/main.rs:89-90 | `parts[1].parse::<u8>()`: an optional '+', then at least one decimal digit, leading zeros allowed, value below 256; whatever it accepts is, after the sign, a run of zeros followed by the decimal form of the value |
| Text.ParseU8Exact | src/main.rs:89-90 | the parser yields n exactly on an optional '+', any number of zeros, then the decimal form of n (both directions) |
| Text.ParseU8Show | src/main.rs:89-90 | the prefix parser reads every u8 back from its decimal form, with or without a leading '+' |
| Text.ParseU8Chars | src/main.rs:89-91 | text the prefix parser accepts contains only digits and perhaps '+' |
| Net.ParseIpv4 | src/main.rs:51-53 | `Ipv4Addr::from_str`: four '.'-separated octet texts and nothing else; it returns a exactly on the dotted-decimal form of a, and fails on every other text (so an IPv6 text fails too) |
| Net.OctetTextIsShow | src/main.rs:51 | the octet rule `IsOctetText` accepts exactly the decimal forms of the numbers 0 to 255, so no leading zero and at most three digits |
| Net.FormatChars | src/main.rs:83 | a dotted-decimal form holds only digits and dots, so no '/' or ':' |
| Address.IsValidIpv4 | src/main.rs:49-55 | true exactly when the text is the dotted-decimal form of some IPv4 address |
| Address.ShiftIn | src/main.rs:95 | one fold step (acc shifted left by 8, or-ed with the octet) drops acc's top byte, shifts up a byte and puts the octet in the low byte |
| Address.Fold | src/main.rs:95-96 | the fold appends the octets below the accumulator as base-256 digits and keeps the result modulo 2^32 |
| Address.ToU32 | src/main.rs:95-96 | the octet fold gives o0*2^24 + o1*2^16 + o2*2^8 + o3, the address as a big-endian number below 2^32 |
| Address.AddressValueInjective | src/main.rs:95-96 | distinct addresses fold to distinct numbers |
| Address.Mask | src/main.rs:99-103 | the mask is 2^32 - 2^(32 - prefixLen), which is 0 for prefix 0 |
| Address.MaskTopBits | src/main.rs:99-103 | bit i of the mask is set exactly when i >= 32 - prefixLen |
| Address.InSubnet | src/main.rs:105-106 | the masked values are equal exactly when the two numbers have the same quotient by 2^(32 - prefixLen) |
| Address.InSubnetAgreesOnTopBits | src/main.rs:105-106 | the masked comparison holds exactly when the two addresses agree on bits 32 - prefixLen through 31 |
| Address.IsIpInCidr | src/main.rs:62-109 | false when the address, the number of '/' pieces, the network or the prefix cannot be read, or when the prefix exceeds 32 |
| Address.IsIpInCidrExact | src/main.rs:62-109 | true exactly when the address is well formed, the range is a well-formed network '/' a prefix of at most 32, and the address shares the network's first prefix bits |
| Address.IsIpInCidrOnForms | src/main.rs:76-106 | on well-formed texts the result is the masked comparison of the two addresses |
| Address.CidrSplits | src/main.rs:76-82 | the range text splits into exactly the network form and the prefix text |
| Address.ZeroPrefixContainsAll | src/main.rs:99-100 | a /0 range contains every address |
| Address.FullPrefixIsEquality | src/main.rs:102-106 | a /32 range contains exactly its own network address |
| Address.ShorterPrefixContains | src/main.rs:99-106 | an address within a range is also within every shorter-prefix range around the same network |
| Address.HostBitsIgnored | src/main.rs:106 | two network addresses that agree on the prefix bits give the same answer for every address |
| Bits.ShlAllOnes | src/main.rs:102 | `!0u32 << k` is 2^32 - 2^k |
| Bits.Shl | src/main.rs:95 | `x << k` on u32 leaves the low k bits clear and puts the low 32 - k bits of x above them |
| Bits.Not | src/main.rs:102 | `!x` on u32 flips each of the 32 bits |
| Bits.And | src/main.rs:106 | a bit of `x & y` is set exactly when it is set in both |
| Bits.Or | src/main.rs:95 | a bit of the or of x and y is set exactly when it is set in either |
| Bits.SameHighBits | src/main.rs:106 | and-ing with the top-bits mask gives equal results exactly when the quotients by 2^k are equal |
| Bits.SameQuotientSameBits | src/main.rs:106 | two numbers below 2^n have the same quotient by 2^k exactly when they agree on bits k through n-1 |
| Bits.MaskBits | src/main.rs:102 | 2^32 - 2^k has bit i set exactly when i >= k |
| Bits.OrIntoLowBits | src/main.rs:95 | or-ing a value below 2^k into a multiple of 2^k adds it |
| Examples.ValidatorAccepts | src/main.rs:49-52 | "192.168.1.1" is valid |
| Examples.RejectsOutOfRangeOctet | src/main.rs:49-53 | "256.1.1.1" is not valid |
| Examples.RejectsLeadingZero | src/main.rs:49-53 | "01.2.3.4" is not valid |
| Examples.RejectsNonAddress | src/main.rs:49-53 | "abc" is not valid |
| Examples.RejectsThreeOctets | src/main.rs:49-53 | "1.2.3" is not valid |
| Examples.CidrMatchesSubnet | src/main.rs:62-108 | "192.168.1.5" is in "192.168.1.0/24" |
| Examples.CidrRejectsOtherSubnet | src/main.rs:62-108 | "192.168.2.5" is not in "192.168.1.0/24" |
| Examples.CidrZeroPrefix | src/main.rs:99-100 | "10.0.0.1" is in "0.0.0.0/0" |
| Examples.CidrRejectsMalformedRange | src/main.rs:76-79 | "1.2.3.4" is not in "not-a-cidr" |
| Examples.CidrRejectsIpv6 | src/main.rs:64-73 | "::1" is not in "::/0" because IPv6 is unsupported |

## Left out

- `main`, the TCP listener, the CORS middleware and the SSE endpoint are server start-up and I/O. They are not part of this model.
- The `#[Tools]` registration, the MCP dispatch and the `Text` result wrapper are framework glue. They are not part of this model. Each operation returns its plain value.
- `async` is left out. No operation awaits anything, so each is modelled as an ordinary call.
- Counter.Wrap: models two's-complement wrap-around. This is what a Rust release build does. A debug build panics on overflow instead, and that panic path is not modelled.
- Counter.Add: wraps like `Wrap` in the same way. The debug-build overflow panic is not modelled.
- Counter.CombinedTool.Increment: the debug-build overflow panic is not modelled, as for `Wrap`.
- Counter.CombinedTool.Decrement: the debug-build overflow panic is not modelled, as for `Wrap`.
- `IpAddr::from_str`, `Ipv4Addr::from_str` and `u8::from_str` belong to the Rust standard library and are not part of this model. They are modelled by the rules they apply:
  - An IPv4 address is four '.'-separated pieces. Each piece is canonical decimal at most 255, so there is no leading zero.
  - A prefix is an optional '+' and then decimal digits. Leading zeros are allowed, and the value must be below 256.
- IPv6 syntax is not modelled. An IPv6 text never parses as IPv4, so its `V6` branch returns `false` just like a parse failure. The model therefore treats every text that is not IPv4 the same way.
- `u32` values are modelled as naturals below 2^32, not as machine bit-vectors. Shift, complement, and and or are written out as arithmetic on them.
