# browser-use-4j: configuration, mock LLM service and HTML post-processing

This project models the three pieces of browser-use-4j that have their own
sequential logic, and proves properties of them in Dafny.

- **ConfigLoader** (`Config` module, `ConfigLoader.dfy`). A key is resolved
  from the process environment first. The environment variable's name is the
  key upper-cased, with every `.` replaced by `_`. Next come the system
  properties, then the properties file, then the caller's default. `getInt`
  and `getBoolean` read the resolved string with `Integer.parseInt` and
  `Boolean.parseBoolean`, and `getInt` falls back to the default when parsing
  fails. The loader is a value holding three maps: a snapshot of the
  environment, a snapshot of the system properties, and the file's
  properties. A ghost `Layered` map, with file, then system, then
  environment and the right-hand layer winning, is the reference definition
  for the precedence.
- **LangChain4jLLMService** (`LlmService` module, `LlmService.dfy`). The
  constructor rejects a null loader and a blank API key. It reads the model
  name, base URL, timeout and token limit with their defaults. `generateText`
  rejects a null or blank prompt and otherwise returns the canned reply:
  "hello" is tested before "weather", both case-insensitively, and anything
  else gets a generic reply. `isAvailable` holds when the key is not blank.
- **JsoupHtmlParser** (`HtmlParser` module, `HtmlParser.dfy`). Jsoup itself
  is a `Jsoup` value made of two functions. `parse` stands for `Jsoup.parse`
  and `select` for `Document.select`, and each returns `None` where the
  library would throw. extractLinks selects `a[href]` through `select`, and
  the ghost predicate `SelectsByTagAndAttribute` states when `select` agrees
  with the model's own tag-and-attribute filter `Select`. getMetadata's
  selectors `meta[name]` and `meta[property]` are that filter directly. The
  model covers:
  - the null and blank argument checks;
  - the link filter;
  - the two-pass metadata merge, as a method with loops over a map variable,
    proved equal to the fold `MetadataOf`;
  - the attribute map, as a method with a loop;
  - the fallbacks to an empty result when the library fails.

`JavaLang.dfy` holds the JDK string and number semantics these pieces rely
on:
- `toLowerCase`, `toUpperCase` and `equalsIgnoreCase`, all ASCII only;
- `String.replace(char, char)`;
- `trim`, which drops characters up to U+0020 at both ends;
- `contains`;
- `Integer.parseInt` and `String.valueOf(int)` over 32-bit `int`;
- `Boolean.parseBoolean`.

`Wrappers.dfy` holds `Option` (where Java has `null`) and `Result` (where
Java throws).

Every getter of the loader is a function of an immutable value, so lookups
cannot change the stored properties.

## Model

| member | source | states |
|---|---|---|
| Config.EnvName | src/main/java/com/browseruse4j/config/ConfigLoader.java:55 | the environment name has the key's length, contains no `.` and no lower-case ASCII letter |
| Config.EnvNameAt | src/main/java/com/browseruse4j/config/ConfigLoader.java:55 | character `i` of the environment name is `_` where the key has `.`, and otherwise the key's character upper-cased |
| Config.EnvNameIdempotent | src/main/java/com/browseruse4j/config/ConfigLoader.java:55 | mapping an environment name again changes nothing |
| Config.ConfigLoader.GetString | src/main/java/com/browseruse4j/config/ConfigLoader.java:53-68 | an environment value for the mapped name is returned whatever it is, `""` included; any result is the default or a value held by one of the three layers |
| Config.ConfigLoader.GetStringIsLayeredLookup | src/main/java/com/browseruse4j/config/ConfigLoader.java:53-68 | getString is a lookup in the layered map (environment over system over file), falling back to the default |
| Config.ConfigLoader.SystemPropertyWins | src/main/java/com/browseruse4j/config/ConfigLoader.java:61-64 | with no environment value, a system property beats the file value and the default |
| Config.ConfigLoader.FileThenDefault | src/main/java/com/browseruse4j/config/ConfigLoader.java:67 | with neither an environment nor a system value, the result is the file value if there is one, else the default |
| Config.ConfigLoader.GetInt | src/main/java/com/browseruse4j/config/ConfigLoader.java:76-84 | the result is the default or the parsed value of the resolved string |
| Config.ConfigLoader.GetIntAbsent | src/main/java/com/browseruse4j/config/ConfigLoader.java:77-79 | a key absent from every layer yields the default, because the default's decimal form parses back to it |
| Config.ConfigLoader.GetIntParsed | src/main/java/com/browseruse4j/config/ConfigLoader.java:76-79 | a configured value that is a valid 32-bit decimal is returned as parsed |
| Config.ConfigLoader.GetIntInvalid | src/main/java/com/browseruse4j/config/ConfigLoader.java:80-83 | a configured value that does not parse yields the default, with no error |
| Config.ConfigLoader.GetBoolean | src/main/java/com/browseruse4j/config/ConfigLoader.java:92-95 | the result is true exactly when the resolved string, lower-cased, is `"true"` |
| Config.ConfigLoader.GetBooleanAbsent | src/main/java/com/browseruse4j/config/ConfigLoader.java:93-94 | a key absent from every layer yields the default |
| Config.ConfigLoader.GetBooleanConfigured | src/main/java/com/browseruse4j/config/ConfigLoader.java:92-95 | a configured value gives true exactly when it equals `"true"` ignoring case |
| JavaLang.ToLowerCase | src/main/java/com/browseruse4j/impl/LangChain4jLLMService.java:113 | the lower-cased string has the same length, and each character is the original one with an ASCII capital replaced by its small letter |
| JavaLang.ToUpperCase | src/main/java/com/browseruse4j/config/ConfigLoader.java:55 | the upper-cased string has the same length, and each character is the original one with an ASCII small letter replaced by its capital |
| JavaLang.Replace | src/main/java/com/browseruse4j/config/ConfigLoader.java:55 | the result has the same length, with every occurrence of the old character replaced by the new one and every other character kept |
| JavaLang.EqualsIgnoreCase | src/main/java/com/browseruse4j/config/ConfigLoader.java:94 | strings equal ignoring case have the same length |
| JavaLang.ToLowerCaseIdempotent | src/main/java/com/browseruse4j/impl/LangChain4jLLMService.java:113 | lower-casing twice is lower-casing once |
| JavaLang.EqualsIgnoreCaseIff | src/main/java/com/browseruse4j/config/ConfigLoader.java:94 | two strings are equal ignoring case exactly when their lower-cased forms are equal |
| JavaLang.Trim | src/main/java/com/browseruse4j/impl/LangChain4jLLMService.java:56 | the trimmed string occurs in the original at an index where everything before it and everything after it is a character up to U+0020; it neither starts nor ends with such a character, and it is empty exactly when every character is one |
| JavaLang.TrimIdempotent | src/main/java/com/browseruse4j/impl/LangChain4jLLMService.java:56 | trimming twice is trimming once |
| JavaLang.IsBlank | src/main/java/com/browseruse4j/impl/LangChain4jLLMService.java:65 | `trim().isEmpty()` holds exactly when every character is at most U+0020 |
| JavaLang.NotBlankAt | src/main/java/com/browseruse4j/impl/LangChain4jLLMService.java:65 | a string with a character above U+0020 anywhere is not blank |
| JavaLang.Contains | src/main/java/com/browseruse4j/impl/LangChain4jLLMService.java:113-115 | containment holds exactly when the needle occurs at some index |
| JavaLang.ContainsLowered | src/main/java/com/browseruse4j/impl/LangChain4jLLMService.java:113-115 | if a string contains a needle, its lower-cased form contains the lower-cased needle |
| JavaLang.NatDigits | src/main/java/com/browseruse4j/config/ConfigLoader.java:77 | the decimal form of a natural number is non-empty, all digits, has no leading zero and denotes the number |
| JavaLang.ParseInt | src/main/java/com/browseruse4j/config/ConfigLoader.java:79 | parsing succeeds exactly on an optional `-` or `+` followed by at least one digit whose signed value fits in 32 bits, and then returns that value (leading zeros allowed) |
| JavaLang.ValueOfInt | src/main/java/com/browseruse4j/config/ConfigLoader.java:77 | the decimal form of an int is non-empty, starts with `-` exactly for a negative int, and is digits after the sign |
| JavaLang.ParseUnsigned | src/main/java/com/browseruse4j/config/ConfigLoader.java:79 | any non-empty digit string parses to its value exactly when that value fits in 32 bits |
| JavaLang.LeadingZero | src/main/java/com/browseruse4j/config/ConfigLoader.java:79 | a leading zero does not change the value of a digit string |
| JavaLang.ParseLeadingZero | src/main/java/com/browseruse4j/config/ConfigLoader.java:79 | `"0"` followed by digits parses like the digits alone |
| JavaLang.ParsePlus | src/main/java/com/browseruse4j/config/ConfigLoader.java:79 | a leading `+` before any digit string parses like no sign |
| JavaLang.ParseMinus | src/main/java/com/browseruse4j/config/ConfigLoader.java:79 | a leading `-` before any non-empty digit string negates its value, and accepts magnitudes up to 2^31 |
| JavaLang.ValueOfBoolean | src/main/java/com/browseruse4j/config/ConfigLoader.java:93 | the text of true has four characters and the text of false five; its meaning, that `Boolean.parseBoolean` reads it back as the same boolean, is `JavaLang.ParseValueOfBoolean` |
| JavaLang.ParseValueOfInt | src/main/java/com/browseruse4j/config/ConfigLoader.java:77-79 | parsing the decimal form of any 32-bit int gives the int back |
| JavaLang.ParseIntRejectsSpace | src/main/java/com/browseruse4j/config/ConfigLoader.java:79-83 | the empty string, and a string with a leading or trailing space, do not parse |
| JavaLang.ParseBoolean | src/main/java/com/browseruse4j/config/ConfigLoader.java:94 | a true result comes from a four-character string |
| JavaLang.ParseBooleanIff | src/main/java/com/browseruse4j/config/ConfigLoader.java:94 | parseBoolean is true exactly when the lower-cased string is `"true"` |
| JavaLang.ParseValueOfBoolean | src/main/java/com/browseruse4j/config/ConfigLoader.java:93-94 | parsing the text of a boolean gives the boolean back |
| LlmService.Create | src/main/java/com/browseruse4j/impl/LangChain4jLLMService.java:43-61 | a null loader fails with the null-loader error; otherwise construction fails, with the blank-key error, exactly when the resolved key is blank; a constructed service is available and holds the settings read from the loader |
| LlmService.Configured | src/main/java/com/browseruse4j/impl/LangChain4jLLMService.java:49-54 | the key the constructor stores is the one resolved for `llm.api.key` with default `""` |
| LlmService.CreateWithDefaults | src/main/java/com/browseruse4j/impl/LangChain4jLLMService.java:49-54 | with only an API key configured, model name, base URL, timeout and token limit take their defaults |
| LlmService.Service.IsAvailable | src/main/java/com/browseruse4j/impl/LangChain4jLLMService.java:86-97 | available exactly when the key has a character above U+0020, that is, when the trimmed key is non-empty |
| LlmService.Service.GenerateText | src/main/java/com/browseruse4j/impl/LangChain4jLLMService.java:64-83 | fails, with the blank-prompt error, exactly when the prompt is null or blank; an accepted prompt gets the mock reply for that prompt, which is one of the three canned replies and never empty |
| LlmService.MockResponse | src/main/java/com/browseruse4j/impl/LangChain4jLLMService.java:110-120 | a prompt containing "hello" (after lower-casing) gets the greeting; otherwise one containing "weather" gets the weather apology, and every other prompt gets the generic reply |
| LlmService.ReplyIgnoresSettings | src/main/java/com/browseruse4j/impl/LangChain4jLLMService.java:64-83 | the reply depends only on the prompt, not on key, model, URL, timeout or token settings |
| LlmService.HelloBeforeWeather | src/main/java/com/browseruse4j/impl/LangChain4jLLMService.java:113-116 | a prompt with both "hello" and "weather" gets the greeting |
| LlmService.ReplyIgnoresCase | src/main/java/com/browseruse4j/impl/LangChain4jLLMService.java:110-120 | prompts equal ignoring case get the same outcome |
| LlmService.GreetedWhenHello | src/main/java/com/browseruse4j/impl/LangChain4jLLMService.java:113-114 | a non-blank prompt whose lower case contains "hello" gets the greeting |
| LlmService.HelloLowered | src/main/java/com/browseruse4j/impl/LangChain4jLLMService.java:113 | a prompt containing "hello" in any letter case contains "hello" once lower-cased |
| LlmService.HelloInAnyCase | src/main/java/com/browseruse4j/impl/LangChain4jLLMService.java:113-114 | a prompt containing "hello" in any letter case is accepted and greeted |
| LlmService.HelloPrompt | src/test/java/com/browseruse4j/impl/LangChain4jLLMServiceTest.java:57-65 | "Hello, how are you?" is answered with the greeting, which contains "Hello" |
| HtmlParser.LastValue | src/main/java/com/browseruse4j/impl/JsoupHtmlParser.java:178-184 | a value found for a key belongs to an entry with that key |
| HtmlParser.LastValueNone | src/main/java/com/browseruse4j/impl/JsoupHtmlParser.java:180-182 | no entry is found for a key exactly when no entry has it |
| HtmlParser.LastValueSome | src/main/java/com/browseruse4j/impl/JsoupHtmlParser.java:180-182 | the value found for a key is that of the last entry with it |
| HtmlParser.Inserted | src/main/java/com/browseruse4j/impl/JsoupHtmlParser.java:178-184 | successive puts never remove a key, and every put key is in the result |
| HtmlParser.InsertedLookup | src/main/java/com/browseruse4j/impl/JsoupHtmlParser.java:178-184 | after successive puts, a key is present when it was before or some put had it, and then maps to the last put's value, or else to its old value |
| HtmlParser.InsertedSnoc | src/main/java/com/browseruse4j/impl/JsoupHtmlParser.java:178-184 | one more put at the end updates the map for that key |
| HtmlParser.Attr | src/main/java/com/browseruse4j/impl/JsoupHtmlParser.java:174 | a non-empty attribute value is the value of an attribute the element holds under that key |
| HtmlParser.Select | src/main/java/com/browseruse4j/impl/JsoupHtmlParser.java:87 | a `tag[attr]` selection is no longer than the document's element list |
| HtmlParser.SelectMembers | src/main/java/com/browseruse4j/impl/JsoupHtmlParser.java:131-146 | a `tag[attr]` selection holds exactly the document's elements with that tag and that attribute |
| HtmlParser.SelectAppend | src/main/java/com/browseruse4j/impl/JsoupHtmlParser.java:127-149 | the selection keeps document order: selecting from a concatenation concatenates the selections |
| HtmlParser.Hrefs | src/main/java/com/browseruse4j/impl/JsoupHtmlParser.java:90 | one href per anchor, in order, each the anchor's `href` attribute |
| HtmlParser.NonEmpty | src/main/java/com/browseruse4j/impl/JsoupHtmlParser.java:91 | the filter is no longer than its input and keeps no empty string |
| HtmlParser.NonEmptyMembers | src/main/java/com/browseruse4j/impl/JsoupHtmlParser.java:91 | the filter keeps exactly the non-empty strings of its input |
| HtmlParser.NonEmptyKeepAll | src/main/java/com/browseruse4j/impl/JsoupHtmlParser.java:91 | the filter drops nothing exactly when no string is empty |
| HtmlParser.NonEmptyAppend | src/main/java/com/browseruse4j/impl/JsoupHtmlParser.java:91 | the filter keeps order: filtering a concatenation concatenates the filtered parts |
| HtmlParser.Links | src/main/java/com/browseruse4j/impl/JsoupHtmlParser.java:89-92 | the links are no more than the anchors, and none of them is empty |
| HtmlParser.LinksMembers | src/main/java/com/browseruse4j/impl/JsoupHtmlParser.java:89-92 | a string is a link exactly when some anchor has it as its non-empty href |
| HtmlParser.LinksKeepAll | src/main/java/com/browseruse4j/impl/JsoupHtmlParser.java:89-92 | there is one link per anchor exactly when no anchor's href is empty |
| HtmlParser.LinksAppend | src/main/java/com/browseruse4j/impl/JsoupHtmlParser.java:89-92 | links keep the anchors' order: the links of a concatenation are the concatenated links |
| HtmlParser.MetaEntries | src/main/java/com/browseruse4j/impl/JsoupHtmlParser.java:131-137 | a pass makes at most one put per meta element, and each put has a non-empty key and value |
| HtmlParser.MetaEntriesSnoc | src/main/java/com/browseruse4j/impl/JsoupHtmlParser.java:132-136 | one more meta element adds a put exactly when its key attribute and content are both non-empty |
| HtmlParser.MetaEntriesAppend | src/main/java/com/browseruse4j/impl/JsoupHtmlParser.java:131-137 | the puts of a concatenation are the concatenated puts |
| HtmlParser.MetaEntriesFrom | src/main/java/com/browseruse4j/impl/JsoupHtmlParser.java:132-135 | every put comes from a selected element's key attribute and its content |
| HtmlParser.MetadataOf | src/main/java/com/browseruse4j/impl/JsoupHtmlParser.java:127-149 | the property pass removes no key of the name pass, and every key it puts is in the metadata |
| HtmlParser.MetadataNonEmpty | src/main/java/com/browseruse4j/impl/JsoupHtmlParser.java:131-146 | every metadata key and every metadata value is non-empty |
| HtmlParser.MetadataFromMeta | src/main/java/com/browseruse4j/impl/JsoupHtmlParser.java:131-146 | every metadata entry is the name or the property of a meta element of the document, mapped to that element's content |
| HtmlParser.PropertyOverridesName | src/main/java/com/browseruse4j/impl/JsoupHtmlParser.java:140-146 | a key the property pass puts takes that pass's last value for it, whatever the name pass put |
| HtmlParser.NameWithoutProperty | src/main/java/com/browseruse4j/impl/JsoupHtmlParser.java:131-137 | a key the property pass never puts is present exactly when the name pass puts it, with the name pass's last value |
| HtmlParser.SkippedElementLeavesMetadata | src/main/java/com/browseruse4j/impl/JsoupHtmlParser.java:131-146 | an element that is not a meta element, or whose name/property or content is empty, leaves the metadata unchanged wherever it stands |
| HtmlParser.SkippedSingle | src/main/java/com/browseruse4j/impl/JsoupHtmlParser.java:134-136 | such an element on its own produces no put |
| HtmlParser.SkippedPass | src/main/java/com/browseruse4j/impl/JsoupHtmlParser.java:131-137 | inserting such an element anywhere leaves a pass's puts unchanged |
| HtmlParser.PutPass | src/main/java/com/browseruse4j/impl/JsoupHtmlParser.java:131-146 | the loop of one pass leaves the map as the fold of that pass's puts over the starting map |
| HtmlParser.GetMetadata | src/main/java/com/browseruse4j/impl/JsoupHtmlParser.java:127-149 | the map built equals the name puts followed by the property puts, and all its keys and values are non-empty |
| HtmlParser.GetAttributes | src/main/java/com/browseruse4j/impl/JsoupHtmlParser.java:178-184 | the map built has exactly the element's attribute keys, each mapped to its value (the last one for a duplicated key) |
| HtmlParser.ParseHtml | src/main/java/com/browseruse4j/impl/JsoupHtmlParser.java:24-38 | null HTML fails with the null-HTML error; otherwise it fails, with the parse error, exactly when Jsoup fails, and it returns Jsoup's document |
| HtmlParser.SelectElements | src/main/java/com/browseruse4j/impl/JsoupHtmlParser.java:41-62 | null HTML is rejected first, then a null or blank selector; otherwise the selection is returned, or `[]` when Jsoup fails |
| HtmlParser.ExtractText | src/main/java/com/browseruse4j/impl/JsoupHtmlParser.java:65-77 | null HTML is rejected; otherwise it returns the document's text, or `""` when Jsoup fails |
| HtmlParser.ExtractLinks | src/main/java/com/browseruse4j/impl/JsoupHtmlParser.java:80-97 | null HTML is rejected; otherwise it returns the non-empty hrefs of the `a[href]` selection Jsoup gives, or `[]` when parsing or selection fails |
| HtmlParser.ExtractTextAgreesWithParse | src/main/java/com/browseruse4j/impl/JsoupHtmlParser.java:65-77 | on HTML that parses, extractText returns the text of the document parseHtml gives |
| HtmlParser.ExtractLinksFiltersSelection | src/main/java/com/browseruse4j/impl/JsoupHtmlParser.java:41-97 | extractLinks returns exactly the non-empty hrefs of what selectElements returns for `a[href]` |
| HtmlParser.LinksFromAnchors | src/main/java/com/browseruse4j/impl/JsoupHtmlParser.java:86-92 | when Jsoup's `a[href]` selection is the anchors having an href, every extracted link is the href of an anchor element of the document |

## Left out

- `loadProperties`. Reading `application.properties` from the class path is I/O, so the file's properties are a given map.
- `System.getenv` and `System.getProperty`. These are read once, as map snapshots held by the loader, while Java reads them on every lookup. Changes between two lookups, such as a `System.setProperty` in the same thread, are not modelled.
- Config.ConfigLoader.GetString: an empty key is not rejected. Java's `System.getProperty("")` throws `IllegalArgumentException`, and the throw escapes getString, getInt and getBoolean. The model instead returns the file value or the default; no caller passes an empty key.
- `getDouble` and the `temperature` setting. Floating-point parsing is not modelled, and the setting never influences behaviour.
- Logging. It is left out everywhere.
- JavaLang.ToLowerCase: ASCII letters only. Java's locale-sensitive Unicode case mapping (for example the Turkish dotless i) is not modelled.
- JavaLang.ToUpperCase: ASCII letters only. Java's locale-sensitive `toUpperCase` can also lengthen a string (`"ß"` becomes `"SS"`), so the same-length facts about `Config.EnvName` hold for the model, not for every Unicode key.
- JavaLang.EqualsIgnoreCase: ASCII letters only. Java compares characters case-insensitively across all of Unicode, which `Config.ConfigLoader.GetBoolean` relies on through `Boolean.parseBoolean`.
- JavaLang.ParseInt: ASCII digits only. Java also accepts digits from other Unicode scripts.
- Jsoup internals. Out of scope are tokenising, DOM construction, CSS selector matching, `text()` and `title()`. The document's elements, title and text are inputs, and an arbitrary selector goes to the `select` function.
- HtmlParser.Attr: for a key held twice it takes the last value, where Jsoup's `Attributes.get` takes the first. Jsoup's parser never stores a key twice, so the two agree on parsed documents, but the model does not require unique keys.
- HtmlParser.GetMetadata: the selections `meta[name]` and `meta[property]` are the `Select` filter directly, so a failure of `document.select` inside getMetadata is not modelled. For `a[href]` in extractLinks the selection goes through Jsoup's `select` and may fail. The predicate `SelectsByTagAndAttribute` states when Jsoup agrees with the filter.
- Attribute-key details of `Element.attr`. Case-insensitive attribute keys and the `abs:` prefix are not modelled.
- `getTitle`, `getText`, `getElements`, `getTagName`, `getText` of an element, and `getAttribute`. Each is a direct read of a Jsoup value, which here is a field of `Document` or `Element`, or `Attr`.
- generateText's `catch`, which rewraps an exception as a `RuntimeException`. The mock reply cannot throw, so this branch is not modelled.
- isAvailable's `catch`. It returns false on an exception, but the key check cannot throw.
- Mutation. `JsoupParseResult` and `JsoupElement` wrap the Jsoup objects, and no operation here mutates them.
- SimpleTaskScheduler. It is concurrency over `java.util.concurrent`.
- PlaywrightBrowserController, JsonParser, LoggerUtils, the `core` interfaces, the example classes and BrowserUse4jApplication. These are wrappers over foreign libraries, console output or network browsing.
