# RetroFrame export of pixel-art-react, modelled in Dafny

pixel-art-react can send an animation to a RetroFrame LED device. The
`sendToRetroFrame` handler of the application component does three things:

- it clears the device's buffers;
- it encodes every frame of the animation as a byte buffer, with four bytes
  `(b, g, r, 1)` per grid cell, and uploads each one;
- it asks the device to show the uploaded images with a delay of 200.

To encode a cell, the handler turns the cell's canvas fill style (`#rrggbb`,
`rgba(10, 20, 30, 0.5)`, `rgba(10 20 30 / 50%)`, ...) into a list of numeric
channels with `RGBAToHexA`.

The project has four modules, one file each:

- `JsBuiltins` (`js_builtins.dfy`) models the JavaScript built-ins the
  parser relies on, on values. These are `String.prototype.split` with one
  separator character, the white-space trimming and integer reading of
  `Number()`, `parseInt` on a `0x` string, and `Math.round` on an exact
  quotient. A JavaScript number is a `JsNumber`: an integer, an exact
  fraction, or text the model leaves uncomputed (`Unparsed`).
- `ColorNormalizer` (`color_normalizer.dfy`) models `RGBAToHexA`. The
  function `Normalize` specifies it. The method `RGBAToHexA` follows the
  code: it splits, splices, then fills an array slot by slot in a loop, and
  it is proved equal to `Normalize`. Lemmas state what the parser gives for
  the hex forms, the comma and slash forms, percentages and the `rgb(`
  prefix.
- `FrameEncoder` (`frame_encoder.dfy`) models the per-frame loop. The
  method `EncodeFrame` pushes four entries per cell onto a list and converts
  the list to bytes with `NewUint8Array`. It is proved equal to the function
  `FrameBytes`. Lemmas give the layout of the buffer.
- `RetroFrameTransmitter` (`retro_frame.dfy`) models the order of the
  requests the handler issues. The trace is a list of `Issue` and
  `AwaitResponse` events. The method `SendToRetroFrame` is proved to
  produce `Transmission(Encoded(frames))`. Lemmas state which requests are
  issued, in what order, and which responses are waited for.

The model follows the code where it departs from CSS Color Module Level 4 and
from the behaviour one might expect:

- an 8-digit hex colour is read as AARRGGBB, not RRGGBBAA;
- a 6-digit hex colour gets alpha 0;
- exactly five characters are dropped before the components, so `rgb(`
  loses the first character of its first component;
- `rgb(50%, 50%, 50%)` gives `[0, 128, 128]` (`ColorNormalizer.RgbPercentages`),
  where CSS reads the colour (128, 128, 128) with alpha 1;
- no default alpha is added and no value is clamped;
- the splice removes the token at position 3 whenever some token is "/", so in
  `rgba(A / B C D)` the "/" stays and C is lost (`ColorNormalizer.MisplacedSlash`);
- the show request is issued without waiting for the uploads;
- no response status is checked.

## Model

| member | source | states |
|---|---|---|
| JsBuiltins.Quotient | src/components/App.jsx:35 | dividing two integers gives the exact quotient, whole exactly when the divisor divides the dividend |
| JsBuiltins.RoundHalfUp | src/components/App.jsx:55 | Math.round of num/den is the integer r with r - 1/2 <= num/den < r + 1/2 |
| JsBuiltins.JoinSplit | src/components/App.jsx:43-44 | joining the pieces of split(sep) with sep gives back the string |
| JsBuiltins.SplitPieces | src/components/App.jsx:43-44 | no piece of split(sep) contains sep |
| JsBuiltins.SplitAtFirst | src/components/App.jsx:43-44 | when a has no sep, splitting a + sep + s gives a followed by the pieces of s |
| JsBuiltins.SplitHead | src/components/App.jsx:43 | split(')')[0] is the prefix up to the first ')', or the whole string when there is none |
| JsBuiltins.TrimStartRemovesLeadingSpace | src/components/App.jsx:60 | Number() drops exactly the leading white space of a token |
| JsBuiltins.TrimEndRemovesTrailingSpace | src/components/App.jsx:60 | Number() drops exactly the trailing white space of a token |
| JsBuiltins.ToNumberIgnoresPadding | src/components/App.jsx:60 | Number() of a token padded with white space on either side equals Number() of the token |
| JsBuiltins.ToNumberDigits | src/components/App.jsx:60 | Number() of a run of decimal digits is its decimal value |
| JsBuiltins.HexValue | src/components/App.jsx:31 | n hex digits are worth less than 16^n |
| JsBuiltins.HexValueAppend | src/components/App.jsx:31 | reading a + b in hex is reading a, shifting by the digits of b and adding b |
| JsBuiltins.HexPrefix | src/components/App.jsx:31 | parseInt reads the longest run of hex digits at the front: a prefix, all hex digits, followed by a non-digit or the end |
| JsBuiltins.ParseHexInt | src/components/App.jsx:31 | parseInt("0x" + s) is NaN exactly when s does not start with a hex digit, and the value of s when s is all hex digits |
| JsBuiltins.HexPrefixStops | src/components/App.jsx:31 | text after the hex digits does not change what parseInt reads |
| ColorNormalizer.PackedBits | src/components/App.jsx:31-35 | the operand of the masks is below 2^32 |
| ColorNormalizer.PackedWraps | src/components/App.jsx:31-35 | a value of hex digits reaches the masks modulo 2^32, so nine or more digits wrap |
| ColorNormalizer.ByteAt | src/components/App.jsx:32-35 | each masked and shifted field is a byte |
| ColorNormalizer.HexStyleChannels | src/components/App.jsx:30-37 | for "#" and digits worth v < 2^32 the result is [byte 2 of v, byte 1, byte 0, byte 3 / 255] |
| ColorNormalizer.HexWithoutDigits | src/components/App.jsx:30-37 | "#" with no hex digit after it gives [0, 0, 0, 0] |
| ColorNormalizer.HexIgnoresTrailingText | src/components/App.jsx:31 | characters after the hex digits do not change the channels |
| ColorNormalizer.SixDigitHex | src/components/App.jsx:30-37 | "#RRGGBB" gives [RR, GG, BB, 0]: alpha 0 |
| ColorNormalizer.EightDigitHex | src/components/App.jsx:30-37 | "#AARRGGBB" gives [RR, GG, BB, AA / 255]: the first pair is the alpha |
| ColorNormalizer.Bytes4 | src/components/App.jsx:32-35 | the masks recover each of the four bytes a 32-bit value is built from |
| ColorNormalizer.ComponentText | src/components/App.jsx:41-43 | the component text is what follows the first five characters up to the first ')' |
| ColorNormalizer.Tokens | src/components/App.jsx:40-44 | at least one token, and none contains the separator |
| ColorNormalizer.TokensRejoin | src/components/App.jsx:40-44 | the tokens joined with the separator are the component text |
| ColorNormalizer.SpliceRemovesFourth | src/components/App.jsx:46-47 | when some token is "/" and there are more than three, exactly the token at position 3 is removed, and a "/" survives exactly when one sat at another position |
| ColorNormalizer.MisplacedSlash | src/components/App.jsx:46-47 | "rgba(A / B C D)" keeps the "/" (read as NaN at position 1) and loses C: the splice does not look for the slash |
| ColorNormalizer.ShortStyle | src/components/App.jsx:39-61 | a style of at most five characters not starting with '#', such as "red", gives the single channel 0 |
| ColorNormalizer.ColourChannelsAreNotFractions | src/components/App.jsx:30-61 | channels 0-2 are never fractions: hex fields are integers and percentages there are rounded |
| ColorNormalizer.RGBAToHexA | src/components/App.jsx:29-65 | the parser equals Normalize; four channels for a hex style, one per remaining token otherwise |
| ColorNormalizer.PercentComponent | src/components/App.jsx:51-58 | "n%" is round(n * 255 / 100) at positions 0-2, within 0..255 for n <= 100, and n / 100 from position 3 on |
| ColorNormalizer.ComponentIgnoresLeadingSpace | src/components/App.jsx:51-61 | a space before a token changes neither branch of the loop body |
| ColorNormalizer.IntegerComponent | src/components/App.jsx:59-61 | a token of digits becomes its integer value, however large: no clamping |
| ColorNormalizer.NoDefaultAlpha | src/components/App.jsx:40-64 | a three-component style gives exactly three channels: no alpha is added |
| ColorNormalizer.RgbDropsFirstCharacter | src/components/App.jsx:41-42 | "rgb(" + c + rest reads the same as "rgba(" + rest: the first character of the first component is lost |
| ColorNormalizer.RgbPercentages | src/components/App.jsx:40-64 | "rgb(" + c + three integer percentages gives three rounded channels, the first read without its first character and no alpha added: "rgb(50%, 50%, 50%)" gives [0, 128, 128] |
| ColorNormalizer.CommaAndSlashFormsAgree | src/components/App.jsx:40-61 | "rgba(A, B, C, D)" and "rgba(A B C / D)" give the same channels, each token read in its position |
| ColorNormalizer.CommaFormComponents | src/components/App.jsx:40-47 | the comma form splits into A, " B", " C", " D" and nothing is spliced |
| ColorNormalizer.SlashFormComponents | src/components/App.jsx:40-47 | the slash form splits into A, B, C, "/", D, and the splice removes the "/" |
| ColorNormalizer.ThreeComponents | src/components/App.jsx:40-47 | the three-component comma form splits into A, " B", " C" |
| FrameEncoder.MissingChannelsAreZero | src/components/App.jsx:116-122 | a channel the parser did not produce is read past the end as undefined and stored as byte 0 |
| FrameEncoder.ShortStyleBytes | src/components/App.jsx:108-122 | a non-empty style of at most five characters not starting with '#', such as "red", encodes as [0, 0, 0, 1] |
| FrameEncoder.PushedChannelsAreNotFractions | src/components/App.jsx:108-122 | the three pushed channels are never fractions, so the typed array's truncation never applies to them |
| FrameEncoder.ToUint8 | src/components/App.jsx:122 | the stored byte is congruent to the integer (or truncated fraction) modulo 256, equal to it within 0..255, and 0 for undefined |
| FrameEncoder.TruncateTowardZero | src/components/App.jsx:122 | truncation toward zero: the floor of num/den for non-negative num, the ceiling (t - 1 < num/den <= t) for negative num |
| FrameEncoder.Pushes | src/components/App.jsx:107-117 | four entries are pushed per cell |
| FrameEncoder.EncodeFrame | src/components/App.jsx:105-122 | the loop's buffer converted to bytes equals FrameBytes, 4 bytes per cell |
| FrameEncoder.NewUint8Array | src/components/App.jsx:122 | the typed array holds ToUint8 of every entry, in order |
| FrameEncoder.FrameLayout | src/components/App.jsx:105-122 | cell i occupies bytes 4i..4i+3 of the buffer, as that cell's own four bytes |
| FrameEncoder.PushLayout | src/components/App.jsx:107-117 | cell i pushes entries 4i..4i+3 of the list |
| FrameEncoder.BytesAt | src/components/App.jsx:122 | byte k of the typed array is ToUint8 of entry k |
| FrameEncoder.FrameBytesAppend | src/components/App.jsx:107-117 | one more cell appends its four bytes and changes nothing before them |
| FrameEncoder.AlphaByteIsOne | src/components/App.jsx:116 | every fourth byte is 1, whatever the parsed alpha |
| FrameEncoder.CellBytesOrder | src/components/App.jsx:116 | a cell's bytes are channels 2, 1 and 0 in that order, then 1 |
| FrameEncoder.EmptyCellBytes | src/components/App.jsx:109-116 | a falsy cell encodes as [0, 0, 0, 1] |
| FrameEncoder.HexCellBytes | src/components/App.jsx:30-122 | a "#RRGGBB" cell encodes as [BB, GG, RR, 1] |
| FrameEncoder.IntegerCellBytes | src/components/App.jsx:112-116 | an "rgba(R, G, B, A)" cell with integers in 0..255 encodes as [B, G, R, 1] |
| FrameEncoder.UniformFrame | src/components/App.jsx:107-117 | a grid of n identical cells encodes as n copies of that cell's bytes |
| FrameEncoder.RedCellBytes | src/components/App.jsx:30-122 | "#ff0000" encodes as [0, 0, 255, 1] |
| FrameEncoder.RedFrameBytes | src/components/App.jsx:105-122 | n cells of "#ff0000" encode as [0, 0, 255, 1] repeated n times |
| RetroFrameTransmitter.SendToRetroFrame | src/components/App.jsx:90-131 | the handler's events are the clear issued and awaited, one upload per frame issued in list order, then the show issued and awaited |
| RetroFrameTransmitter.Uploads | src/components/App.jsx:104-124 | one upload per frame |
| RetroFrameTransmitter.UploadAt | src/components/App.jsx:104-124 | the i-th upload carries body i |
| RetroFrameTransmitter.TransmissionShape | src/components/App.jsx:99-131 | the clear and its response come first, upload i is at position 2 + i, and the show and its response come last |
| RetroFrameTransmitter.IssuedAppend | src/components/App.jsx:99-131 | the requests issued by two runs of events are those of the first, then those of the second |
| RetroFrameTransmitter.IssuedUploads | src/components/App.jsx:104-124 | the uploads issue one request per frame, in frame order |
| RetroFrameTransmitter.IssuedRequests | src/components/App.jsx:99-131 | the issued requests are the clear, then one upload per frame in order, then the show: N + 2 requests |
| RetroFrameTransmitter.OnlyClearAndShowAwaited | src/components/App.jsx:100-131 | only the clear's and the show's responses are waited for; the show does not wait for the uploads |
| RetroFrameTransmitter.ClearCompletesFirst | src/components/App.jsx:99-102 | the clear is issued and its response is awaited before anything else, and every later request is a POST |
| RetroFrameTransmitter.UploadBodies | src/components/App.jsx:104-123 | upload i carries 4 bytes per cell of frame i, with cell c's bytes at positions 4c..4c+3 |

## Left out

- HTTP: `fetch`, the host taken from `window.location`, the request headers and the responses are not modelled. Each request is an event in a trace. The code reads no response status.
- Failing requests: the trace assumes every fetch resolves. A clear that rejects, on a network failure, ends `sendToRetroFrame` before any upload or the show is issued; a show that rejects ends it after all uploads are issued. The model has no such early end.
- In-place update: the code removes the token at position 3 with `splice(3, 1)` and overwrites the token array of `RGBAToHexA` slot by slot, both in place; the model builds `parts[..3] + parts[4..]` and fills a fresh array. Nothing else holds the token array, so no aliasing is lost.
- Completion order of the uploads: each upload is awaited inside a callback that nobody waits for. When the uploads complete, relative to each other and to the show request, is a question of concurrency. The trace records only the order in which requests are issued.
- The `connect(...)` call at the top of `sendToRetroFrame` has no effect and is left out. So are the React component, its modal and help state, and the redux wiring.
- Immutable's `forEach` stops early when a callback returns `false`. The callbacks here never do, so frames and grids are plain sequences.
- Floating point: `Number()` is modelled only on optionally signed decimal integers. Decimal fractions, exponents, `Infinity` and `0x` tokens are kept as `Unparsed` text. A decimal alpha such as `0.5` never reaches the bytes.
- ToUint8: an `Unparsed` channel becomes byte 0. This is right for NaN, but not for numbers the model leaves unparsed: JavaScript stores a decimal such as `10.5` as 10, an exponent such as `1e2` as 100, a hex token such as `0x1A` as 26, and a decimal percentage such as `50.5%` as `Math.round(128.775)`, 129.
- PercentComponent: `n%` is computed exactly as a rational, with round-half-up. The code rounds the double `n / 100 * 255`, which agrees with this for integers |n| < 6410, so for every n in 0..100. For n = 6410 the double product is 16345.499999999998 and the code gives 16345 where the model gives 16346.
- Large integers: integers are unbounded. A decimal token or a hex colour whose value is above 2^53 can lose precision in JavaScript, where it is rounded to the nearest double; the model reads it exactly.
- RGBAToHexA: the hex branch is modelled with arithmetic on integers, not with 32-bit bit-vector masks. `ByteAt(w, 2^k)` stands for `(w & (0xff << k)) >>> k` with w < 2^32. `Bytes4` proves that `ByteAt` recovers each byte of a packed value; that `ByteAt` equals the bit-mask expression is not proved.
- Character counting: `substr(5)` and `r.length - 1` count UTF-16 code units, while a Dafny string counts characters. The two differ only for characters outside the Basic Multilingual Plane.
