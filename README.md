# Secret resolution of Avallc AI's `config.py`, in Dafny

This project models how `config.py` resolves the application's two secrets.

- **The `.env` parser (`_load_dotenv`).** It reads `key=value` lines. It strips each line, skips blank lines and `#` comments, and ignores lines without `=`. It splits a line at the first `=`, strips the key and the value, and lets later keys overwrite earlier ones. A missing or unreadable file gives the empty mapping.
- **The once-only cache (`_DOTENV_CACHE`).** The first load fills it, and nothing replaces it afterwards.
- **`get_license_key`.** It returns the `AVA_LICENSE_KEY` environment variable when that is non-empty. Otherwise it returns the file's value, or nothing.
- **`get_encryption_key`.** It returns the UTF-8 bytes of the first non-empty `AVA_ENCRYPTION_KEY` value, taking the environment before the file. If neither has one, it returns the placeholder `b"YOUR_STATIC_KEY"`.

Modules:

- `Text` (`text.dfy`) models the three Python `str` operations the parser uses: `strip()`, `splitlines()` and `split("=", 1)`. Whitespace is CPython's `str.isspace` set and the line breaks are `str.splitlines`'s set, written out by code point. `"\r\n"` counts as one break.
- `Utf8` (`utf8.dfy`) models `str.encode()`, which encodes as UTF-8.
- `Dotenv` (`dotenv.dfy`) holds the line parser `ParseLine`, the specification functions `Collect`/`ParseLines`/`DotenvMap`, and the parsing loop `ParseDotenv`. That loop is proved equal to `ParseLines(SplitLines(text))`.
- `Config` (`config.dfy`) holds:
  - the resolvers as functions of the environment and the loaded mapping;
  - the class `SecretStore`, whose field `cache` is `_DOTENV_CACHE`, with the methods `LoadDotenv`, `GetLicenseKey` and `GetEncryptionKey`.

Inputs the model takes as parameters:

- The process environment is a `map<string, string>` parameter.
- The `.env` file is a `DotenvFile` parameter: `Missing`, `Unreadable` (a read or UTF-8 decoding error inside the `try`) or `Present(text)`. It is the file as it stands when the method is called. It is consulted only when the cache is still empty.

Points where the code is more specific than its doc-comments:

- Both resolvers read the file only when the environment value is falsy. This is because of `if env_key` (config.py:81) and the short-circuit `or` (config.py:101). If the variable is set and non-empty, that call does not fill the cache: it is left as it was. The methods' postconditions state this.
- `get_license_key` does not test the file's value for emptiness. An entry `AVA_LICENSE_KEY=` in the file yields `Some("")`, not `None`. An empty environment value, on the other hand, falls through to the file. So "the environment value always wins" holds only for non-empty values.
- `get_encryption_key` treats an empty value from either source as missing. Such a value leads to the next source, and finally to the placeholder.

## Model

| member | source | states |
|---|---|---|
| `Text.TrimLeft` | config.py:58 | the result is a suffix of the input and does not begin with whitespace |
| `Text.TrimRight` | config.py:58 | the result is a prefix of the input and does not end with whitespace |
| `Text.TrimLeftDropsSpace` | config.py:58 | what the left trim removes is whitespace only |
| `Text.TrimRightDropsSpace` | config.py:58 | what the right trim removes is whitespace only |
| `Text.Strip` | config.py:58 | the stripped line is no longer than the line and is empty or begins and ends with a non-space |
| `Text.StripInfix` | config.py:58 | `strip()` returns an infix of the line, and everything it removes on either side is whitespace |
| `Text.StripDropsNoNonSpace` | config.py:58 | a non-space character of the line survives stripping |
| `Text.StripAddsNothing` | config.py:58 | stripping introduces no character |
| `Text.StripKeepsNonSpace` | config.py:58-61 | a non-space character such as `=` is in the stripped line exactly when it is in the line |
| `Text.StripOfStripped` | config.py:58 | stripping changes nothing in a line that begins and ends with a non-space |
| `Text.StripIdempotent` | config.py:58 | stripping twice is stripping once |
| `Text.StripAllSpace` | config.py:58-59 | a line of whitespace only strips to the empty line (skipped as blank) |
| `Text.SplitFirst` | config.py:62 | `split("=", 1)`: key + "=" + value rebuilds the line, and the key contains no `=` |
| `Text.SplitFirstUnique` | config.py:62 | the split is at the first `=`: any decomposition with an `=`-free left part is the one found |
| `Text.SplitLinesFrom` | config.py:57 | no produced line contains a line-break character |
| `Text.SplitLines` | config.py:57 | `splitlines()`: no line contains a line-break character |
| `Text.SplitLinesFromKeepsText` | config.py:57 | the lines, joined back, are the text with its line breaks removed |
| `Text.SplitLinesKeepsText` | config.py:57 | splitting a file into lines loses only its line breaks |
| `Text.SplitLinesFromPlain` | config.py:57 | characters that are not line breaks never end a line: they extend the line being built |
| `Text.SplitLinesFromBreak` | config.py:57 | every line-break character ends the line being built, except a `\r` directly followed by `\n` |
| `Text.SplitLinesFromCrLf` | config.py:57 | `"\r\n"` ends the line being built as one break |
| `Text.SplitLinesOfFirst` | config.py:57 | a break-free line followed by a single break character is split off as one line |
| `Text.SplitLinesOfFirstCrLf` | config.py:57 | a break-free line followed by `"\r\n"` is split off as one line, with no empty line between |
| `Text.SplitLinesOfTerminated` | config.py:57 | lines end exactly at the breaks: the text of break-free lines each followed by `"\n"`, then any text, splits into those lines followed by that text's lines |
| `Text.SplitLinesOfLine` | config.py:57 | a non-empty break-free text is exactly one line |
| `Text.SplitLinesOfUnterminated` | config.py:57 | a file whose last line has no terminator splits into its lines with that last line included, so `A=1\nB=2` gives `A=1` and `B=2` |
| `Text.SplitLinesOfEmpty` | config.py:57 | an empty file has no lines, not one empty line |
| `Text.SplitLinesRoundTrip` | config.py:57 | break-free lines each followed by `"\n"` split back into exactly those lines, so a final break adds no empty line |
| `Utf8.EncodeChar` | config.py:105 | one to four bytes per character, one byte equal to the code point exactly for ASCII |
| `Utf8.Encode` | config.py:105 | the encoding of `s` has between `|s|` and `4*|s|` bytes, so it is empty only for "" |
| `Utf8.EncodeAppend` | config.py:105 | encoding a concatenation concatenates the encodings |
| `Utf8.EncodeAscii` | config.py:105 | on ASCII text, `.encode()` gives one byte per character equal to its code |
| `Dotenv.ParseLine` | config.py:58-63 | a line is skipped exactly when stripped it is empty, begins with `#` or has no `=`; otherwise its entry is the stripped text before the first `=` and the stripped text after it |
| `Dotenv.EntriesAppend` | config.py:57 | each line is parsed on its own, so parsing commutes with concatenating line lists |
| `Dotenv.ParseDotenv` | config.py:57-63 | the loop over the file's lines builds exactly `ParseLines(SplitLines(text))` |
| `Dotenv.CollectDomain` | config.py:57-63 | a key is in the mapping exactly when some parsed line defines it; keys absent from the file are absent |
| `Dotenv.CollectLastWins` | config.py:63 | the value stored for a key is that of the last line defining it |
| `Dotenv.CollectSkipsNone` | config.py:59-61 | a line that yields no entry can be removed from anywhere without changing the mapping |
| `Dotenv.ParseLinesDomain` | config.py:57-63 | on file lines: a key is parsed exactly when some line of the file defines it |
| `Dotenv.ParseLinesLastWins` | config.py:57-63 | on file lines: for duplicate keys the last occurrence wins |
| `Dotenv.ParseLinesSkipsIgnored` | config.py:58-61 | on file lines: blank, comment and `=`-less lines contribute nothing wherever they are |
| `Dotenv.ParseFormatRoundTrip` | config.py:62-63 | a `key=value` line whose key and value need no stripping, whose key contains no `=` and does not start with `#`, reads back as that entry, even when the value contains `=` or the key is empty (`=v` gives key `""`) |
| `Config.LoadTwice` | config.py:49-68 | the first load fills the cache and the second returns the same mapping even if the file changed in between; from an empty cache that mapping is the first file's |
| `Config.LicenseKey` | config.py:80-83 | a non-empty environment value wins; otherwise the file's value if the key is there; otherwise `None` |
| `Config.EncryptionKey` | config.py:101-109 | never empty; the environment's bytes if it is non-empty, else the file's if non-empty, else exactly `b"YOUR_STATIC_KEY"` |
| `Config.EmptyEnvIsUnset` | config.py:80-104 | an empty environment value behaves as an unset variable for both resolvers |
| `Config.EnvOverridesFile` | config.py:80-103 | with the variable set and non-empty, the file's contents do not affect either resolver |
| `Config.FallbackIndistinguishable` | config.py:101-109 | a key set in the environment whose bytes equal the placeholder's is not distinguishable from no configuration |
| `Config.FallbackIndistinguishableFile` | config.py:101-109 | with the variable unset or empty, a `.env` value whose bytes equal the placeholder's is not distinguishable from no configuration either |
| `Config.SecretStore.constructor` | config.py:35 | the cache starts empty |
| `Config.SecretStore.LoadDotenv` | config.py:39-69 | a filled cache is returned unchanged whatever the file now holds; otherwise the file's mapping (empty if missing or unreadable) is returned and becomes the cache |
| `Config.SecretStore.GetLicenseKey` | config.py:73-83 | returns `LicenseKey` over the mapping a load would return; the cache is filled only when the variable is unset or empty |
| `Config.SecretStore.GetEncryptionKey` | config.py:87-109 | returns `EncryptionKey` over the mapping a load would return; the cache is filled only when the variable is unset or empty |
| `Config.ResolveTwice` | config.py:49-68 | two successive resolutions with the same environment agree even if the file changes between them |

## Left out

- `crypto.py`: decryption is a call into the `cryptography` library's Fernet, a foreign library, and it uses its own hard-coded key. It is not part of this model.
- `license.py`: the device id is SHA-256 over a hardware query, and validation is a bare string comparison. It is not part of this model.
- `cloud.py`, `gpu.py`, `main.py`, `gui.py`, `service.py`: network I/O, a library probe, printing and a sleep loop. None of them is part of this model.
- The location of `.env` (`Path(__file__).resolve().parent`) and the `exists()` test are not modelled. The file reaches the model as the `DotenvFile` parameter.
- `Unreadable` stands for every exception of the `try` block. In the source these can only come from reading or decoding the file, before any entry is written, so no partial mapping arises. The model still resets the result to empty on that branch, as the source does.
- Concurrency is not modelled. The source is single-threaded, and the model has one owner of the cache.
- `Utf8.Encode` is total. In Python, `.encode()` raises on lone surrogates, which `os.environ` can hold after decoding with `surrogateescape`. A Dafny `char` cannot be a surrogate, so that error path is absent.
- The Unicode tables are fixed code-point sets as of current CPython. They are not derived from the Unicode database.
