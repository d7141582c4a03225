# Coursework scripts: smartphone battery, image fetcher naming, discount rule

This project models, in Dafny, the three pieces of the coursework repository
that hold logic of their own:

- **The smartphone classes** (`Week5/smartphone.py`). `Smartphone` and
  `GamingPhone` are classes with a mutable `battery` field. `charge` adds to
  the battery and caps it at 100. There is no lower cap. `play_game` takes 20
  off only when more than 20 is left; otherwise it warns and changes nothing.
  `call` changes nothing. Each reply is a `Reply` value that carries what the
  f-string interpolates. `Text` renders it with the same wording and emoji.
- **The image fetcher's decisions** (`Week6/ubuntu_image_fetcher.py`):
  - **Resolving an `<img src>`.** A `//host/...` reference always gets `https:`. This departs from reference resolution in section 5.2 of RFC 3986, which would use the page's scheme. A `/path` reference gets the page's scheme and host. Anything else is kept.
  - **The Content-Type dispatch.** `image/...` is downloaded, a type containing `text/html` is a page to extract from, and anything else is skipped.
  - **The file name.** It is the basename of the URL path, or `downloaded_image.jpg` when that is empty.
  - **The rename loop.** It re-splits the already suffixed name on every pass, so the names grow as `a.jpg`, `a_1.jpg`, `a_1_2.jpg`, ... The loop is a method with a loop invariant over the finite set of names already in the save directory.
  - **Reading the URL list.** The list comes either from a comma-separated line or from a file with one URL per line.
- **The discount rule** (`Week3/discount.py`). A discount of 20 percent or more is taken off the price; a smaller one is ignored. The prices are exact reals.

The Python library behaviour these scripts rely on is written out in module
`PyText`:
- `str.isspace` with Python's full whitespace set;
- `strip`;
- `split` on one character, and `join`;
- `rfind`;
- `os.path.basename`;
- `os.path.splitext`, for names without `/`;
- `str(int)`.

Modules: `PyText` (py_text.dfy), `ImageFetcher` (image_fetcher.dfy),
`Smartphones` (smartphone.dfy), `Discount` (discount.dfy).

## Model

| member | source | states |
|---|---|---|
| Smartphones.Smartphone.constructor | Week5/smartphone.py:4-8 | brand, model, storage and battery are the arguments |
| Smartphones.Smartphone.Call | Week5/smartphone.py:11-12 | the reply is the calling message for the number and the phone's model; the method may change no field |
| Smartphones.ChargedLevel | Week5/smartphone.py:16-18 | the charged level is at most 100, at most the sum, and is either the sum or 100, i.e. `min(battery + amount, 100)` |
| Smartphones.Smartphone.Charge | Week5/smartphone.py:15-19 | the new battery is `ChargedLevel(old battery, amount)`, only the battery may change, and the reply reports the model and the new level |
| Smartphones.GamingPhone.constructor | Week5/smartphone.py:23-26 | the four inherited fields are the arguments, as for Smartphone, and coolingSystem is the fifth argument |
| Smartphones.GamingPhone.Call | Week5/smartphone.py:29-30 | the overriding call replies with the gaming-mode message and may change no field |
| Smartphones.GamingPhone.Charge | Week5/smartphone.py:15-19 | the inherited charge: same new battery and reply as Smartphone.Charge, only the battery changes |
| Smartphones.PlayedLevel | Week5/smartphone.py:34-37 | above 20 the level drops by exactly 20 and stays above 0; at or below 20 it is unchanged |
| Smartphones.GamingPhone.PlayGame | Week5/smartphone.py:33-38 | the new battery is `PlayedLevel(old battery)`; the reply is the playing message with the new level when the old level was above 20, and the low-battery warning otherwise; only the battery changes |
| Smartphones.BatteryNeverAboveFull | Week5/smartphone.py:15-38 | from a level of at most 100, no sequence of charges and games takes the battery above 100 |
| Smartphones.BatteryStaysInRange | Week5/smartphone.py:15-38 | from a level in 0..100, any sequence of non-negative charges and games keeps it in 0..100 |
| Smartphones.NegativeChargeGoesBelowZero | Week5/smartphone.py:16-18 | nothing stops a negative charge: 10 charged by -30 gives -20 |
| Smartphones.UsageExample | Week5/smartphone.py:41-48 | the script's five calls return the calling, charged-to-85, gaming-call, playing-at-70 and charged-to-85 replies |
| Smartphones.CallText | Week5/smartphone.py:12 | the first call prints `📞 Calling +254730456789 from Galaxy S23...` |
| Smartphones.FirstChargeText | Week5/smartphone.py:19 | charging the Galaxy S23 to 85 prints `🔋 Galaxy S23 charged to 85%` |
| Smartphones.GamingCallText | Week5/smartphone.py:30 | the gaming phone's call prints `📞 Calling +233730456789 with Gaming Mode ON 🎮 using ROG Phone 7!` |
| Smartphones.PlayingText | Week5/smartphone.py:36 | the game prints `🎮 Playing Call of Duty Advanced Warfare on ROG Phone 7... Battery now 70%` |
| Smartphones.WarningText | Week5/smartphone.py:38 | the low-battery reply prints `⚠️ Battery too low to play <game>!`, shown for the game `Chess` |
| Smartphones.SecondChargeText | Week5/smartphone.py:19 | charging the ROG Phone 7 to 85 prints `🔋 ROG Phone 7 charged to 85%` |
| Smartphones.LevelTexts | Week5/smartphone.py:19 | the levels 85 and 70 are printed as `85` and `70` |
| ImageFetcher.ResolveSrc | Week6/ubuntu_image_fetcher.py:47-54 | the resolved URL ends with `src`; a `src` starting with `/` gets `https://` or the page's `scheme://` in front; any other `src` is returned unchanged |
| ImageFetcher.ResolveNetworkPath | Week6/ubuntu_image_fetcher.py:48-49 | a `src` starting with `//` resolves to `"https:" + src` |
| ImageFetcher.ResolveAbsolutePath | Week6/ubuntu_image_fetcher.py:50-52 | a `src` starting with a single `/` resolves to `scheme + "://" + netloc + src` of the page |
| ImageFetcher.ResolveIdempotent | Week6/ubuntu_image_fetcher.py:48-54 | a fact about the model, not a step of the source, which resolves each `src` once: the resolved URLs are fixed points of the resolution, when the page's scheme does not start with `/` |
| ImageFetcher.ImageUrlFromPage | Week6/ubuntu_image_fetcher.py:44-54 | no URL exactly when there is no `src` or it is empty; otherwise the URL is the resolved `src`, never empty |
| ImageFetcher.RouteFor | Week6/ubuntu_image_fetcher.py:88-106 | direct download exactly when the type starts with `image/`, even if it also holds `text/html`; extraction exactly when it does not start with `image/` and contains `text/html`; skipped otherwise |
| ImageFetcher.MissingContentTypeSkipped | Week6/ubuntu_image_fetcher.py:85-106 | a response without Content-Type (read as `""`) is skipped |
| PyText.Basename | Week6/ubuntu_image_fetcher.py:110 | the basename holds no `/`, is a suffix of the path, and is preceded by `/` when shorter than the path |
| ImageFetcher.FilenameFor | Week6/ubuntu_image_fetcher.py:109-110 | the name is the path's basename when that is non-empty and `downloaded_image.jpg` otherwise; it is never empty and holds no `/` |
| PyText.SplitExtMeaning | Week6/ubuntu_image_fetcher.py:116 | the extension is empty, or starts with the last dot, holds no other dot and follows a stem that is not all dots; it is empty only when the name has no dot or only dots before its last one |
| ImageFetcher.RenameStep | Week6/ubuntu_image_fetcher.py:116-117 | one rename makes the name longer by the `_` and the counter's digits |
| ImageFetcher.SplitExtOfRenameStep | Week6/ubuntu_image_fetcher.py:116-117 | one rename keeps the extension and appends `_<counter>` to the stem, as `splitext` sees the new name |
| ImageFetcher.ChooseFilename | Week6/ubuntu_image_fetcher.py:113-119 | the loop ends for every finite set of existing names; the chosen name is not in the set, so nothing is overwritten; it is the first free name of the rename chain; a free initial name is kept unchanged |
| ImageFetcher.RenamedShape | Week6/ubuntu_image_fetcher.py:114-119 | after k passes the stem is the original stem followed by `_1_2..._k` and the extension is the original one |
| ImageFetcher.SuffixesGrow | Week6/ubuntu_image_fetcher.py:116-119 | each pass adds at least two characters to the stem |
| ImageFetcher.RenamedLength | Week6/ubuntu_image_fetcher.py:114-119 | after k passes the name is as long as the original plus `_1_2..._k` |
| ImageFetcher.RenamedDistinct | Week6/ubuntu_image_fetcher.py:114-119 | the names of the rename chain are pairwise different |
| ImageFetcher.RenamedHasNoSlash | Week6/ubuntu_image_fetcher.py:110-119 | a name without `/` stays without `/` through every rename; together with FetchImage never choosing `.` or `..`, the file stays in the save directory |
| ImageFetcher.ThirdRenameOfJpg | Week6/ubuntu_image_fetcher.py:114-119 | the third rename of `a.jpg` is `a_1_2_3.jpg` |
| PyText.NatToStringRoundTrip | Week6/ubuntu_image_fetcher.py:117 | the counter's decimal digits read back to the counter |
| ImageFetcher.FetchImage | Week6/ubuntu_image_fetcher.py:85-119 | skipped exactly when the type routes to Skip; an image type saves the URL itself; a page reports that no image was found, or fails when its resolved image URL has no scheme (a relative `src`) or the image request fails, and otherwise saves that URL; a saved name is new to the directory, is neither `.` nor `..`, has no `/`, and is the first name of the URL path's rename chain for which `exists()` is false (`.` and `..` count as existing) |
| ImageFetcher.ParentNameRenamed | Week6/ubuntu_image_fetcher.py:110-117 | a URL path ending in `/..` gives the name `..`, which always exists, and the first pass renames it to `.._1` |
| PyText.StripSlice | Week6/ubuntu_image_fetcher.py:152 | `strip` keeps a contiguous slice and drops only whitespace on either side |
| PyText.StripEmptyIffAllSpace | Week6/ubuntu_image_fetcher.py:152 | a piece strips to `""`, and is dropped, exactly when it is all whitespace |
| PyText.StripIdempotent | Week6/ubuntu_image_fetcher.py:152-154 | a fact about the model, not a step of the source, which strips each string once: `strip` leaves a stripped string as it is, so the kept URLs are fixed points of `strip` |
| PyText.SplitOmitsSeparator | Week6/ubuntu_image_fetcher.py:154 | no piece of `split(sep)` holds `sep` |
| PyText.JoinSplit | Week6/ubuntu_image_fetcher.py:154 | joining the pieces with the separator gives back the input |
| PyText.SplitJoin | Week6/ubuntu_image_fetcher.py:154 | splitting a join of separator-free pieces gives back the pieces |
| ImageFetcher.CleanUrls | Week6/ubuntu_image_fetcher.py:152-154 | every kept URL is non-empty and has no whitespace at either end, and there are no more URLs than pieces |
| ImageFetcher.CleanUrlsAppend | Week6/ubuntu_image_fetcher.py:152-154 | cleaning works piece by piece, so the input order is kept |
| ImageFetcher.CleanUrlsMembers | Week6/ubuntu_image_fetcher.py:152-154 | a string is a kept URL exactly when it is non-empty and some piece strips to it |
| ImageFetcher.CleanUrlsOmit | Week6/ubuntu_image_fetcher.py:152-154 | a character no piece holds is in no URL |
| ImageFetcher.UrlsFromCommaList | Week6/ubuntu_image_fetcher.py:154 | every URL is non-empty, stripped and free of commas |
| ImageFetcher.UniversalNewlines | Week6/ubuntu_image_fetcher.py:151-152 | the file is read in text mode: no carriage return is left, and text without one is read unchanged |
| ImageFetcher.UniversalNewlinesAtCR | Week6/ubuntu_image_fetcher.py:151-152 | a `\r`, or a `\r\n`, is read as one `\n` and the `\r`-free text before it as it is; with UniversalNewlines this pins the whole reading, so `a\rb` is two lines |
| ImageFetcher.UrlsFromLines | Week6/ubuntu_image_fetcher.py:151-152 | every URL is non-empty, stripped and free of newlines |
| ImageFetcher.UrlsFromInput | Week6/ubuntu_image_fetcher.py:143-154 | the URLs are UrlsFromLines of the file's text when the stripped input names a file, and UrlsFromCommaList of the stripped input otherwise; every URL is non-empty and stripped |
| Discount.CalculateDiscount | Week3/discount.py:1-6 | at 20 percent or more the result is `price * (100 - d) / 100`; below 20 it is `price` |
| Discount.ThresholdIsInclusive | Week3/discount.py:2-3 | exactly 20 percent already applies: the result is `0.8 * price` |
| Discount.DiscountWithinPrice | Week3/discount.py:2-3 | for a non-negative price and 20 to 100 percent, the result lies in `[0, price]`, and is 0 at 100 percent |
| Discount.NoUpperGuard | Week3/discount.py:2-3 | nothing caps the percentage: above 100 a positive price turns negative |
| Discount.DiscountMonotone | Week3/discount.py:2-3 | a larger applied discount never raises a non-negative price |
| Discount.Report | Week3/discount.py:11-16 | "Discount applied!" is printed exactly when the percentage is 20 or more, and the price shown is the one `calculate_discount` returned |
| Discount.ReportMatchesDiscount | Week3/discount.py:13-16 | for a non-zero price, "Discount applied!" is printed exactly when the final price differs from the original, i.e. when the discount branch was taken |

## Left out

- HTTP requests are left out. So are `raise_for_status`, timeouts, headers and streaming (Week6/ubuntu_image_fetcher.py:38-39, 82-83, 100-101, 123). FetchImage assumes the first request succeeded. The Content-Type it read is a parameter, and so is whether the request for an image found on a page succeeded (`imageRequestOk`).
- HTML parsing (`BeautifulSoup(...).find("img")`, lines 41-42) is left out. The page's first `src` is an `Option` parameter. A failed page fetch, which the source reports and turns into None (lines 56-59), is folded into that parameter.
- `urlparse` is a function parameter. RFC 3986 parsing is not re-implemented.
- The file write (lines 122-124), `mkdir` (157-158) and every `print` are left out. So are the `except` handlers that only print (128-131).
- `filepath.exists()` is membership in a set of names that does not change while the loop runs: the directory's entries plus `.` and `..`, for which it is always true. Other processes writing into the directory are not modelled.
- `main`'s loop over the URLs (lines 161-162) is not modelled: FetchImage handles one URL against a given set of existing names.
- `os.path.isfile` and reading the file become the `fileText` parameter of UrlsFromInput. UTF-8 decoding is left out.
- PyText.SplitExt models `os.path.splitext` only for names without `/`. The fetcher only splits names that have none (RenamedHasNoSlash).
- Discount.CalculateDiscount: computes in exact reals, not IEEE doubles, so it does not model float rounding.
- `float(input(...))`, the `ValueError` message and the `:.2f` formatting of Week3/discount.py are left out.
- Smartphones.GamingPhone: it is a separate class that repeats Smartphone's fields and `charge`. Dafny here has no inheritance, so subtype polymorphism is not modelled.
- Smartphones.Smartphone.Charge: the battery is an unbounded integer. A float battery, which Python would also accept, is not modelled.
- The code caps the battery only at 100 (Week5/smartphone.py:17-18). Nothing guards the lower end, as NegativeChargeGoesBelowZero shows.
- ImageFetcher.FetchImage: of the URLs `requests` refuses before sending, only those without a scheme (lines 100 and 128) are failures the model derives. Those with no host or a scheme other than http or https fail only through the `imageRequestOk` parameter.
- Week5/polymorphism.py is not part of this model: its methods return fixed strings.
- Week4/file_challenge.py and Week4/error_handling.py are not part of this model: they are file I/O and error printing.
- Week7/data_analysis.py is not part of this model: it only calls plotting and statistics libraries.
