# image_from_cdn, in Dafny

The blog's only piece of behaviour is the Liquid filter `image_from_cdn`
(`_plugins/image_from_cdn.rb`). Templates call it with a path relative to the
blog's Cloudinary folder and, optionally, an alt text (default `Image`); it
returns the Markdown image reference

    ![<alt>](https://res.cloudinary.com/harigopal/image/upload/v1541686088/blog/<path>)

with both arguments inserted verbatim. Nothing is escaped, URL-encoded,
trimmed or validated. For strings in one encoding, such as the UTF-8 text
Jekyll passes, no input makes the filter fail.

`image_from_cdn.dfy` holds one module, `ImageFromCdn`, named after the Ruby
module. It contains:

- `BASE`, the hard-coded Cloudinary folder URL, and `DEFAULT_ALT`, the default
  alt text `"Image"`;
- `ImageFromCdn(path, alt := DEFAULT_ALT)`, the filter. The Ruby default
  argument becomes a Dafny default parameter;
- `LaidOut`, an independent reference description of the output, stated
  character by character, with a lemma proving it is equivalent to the filter;
- `Unrender(s, altLength)`, an inverse of the filter for an alt text of known
  length, with round-trip lemmas in both directions;
- injectivity lemmas derived from the inverse, and a witness that the output is
  ambiguous once both arguments vary with alt texts of different lengths. That ambiguity is
  a consequence of the missing escaping.

The filter is a Dafny function without a `reads` clause. It is therefore
deterministic and stateless by construction: equal arguments give equal
results.

## Model

| member | source | states |
|---|---|---|
| ImageFromCdn.ImageFromCdn | _plugins/image_from_cdn.rb:2-4 | total on all strings; the result has length \|alt\| + \|BASE\| + \|path\| + 5, starts with `![` and ends with `)` whatever the inputs, including empty ones |
| ImageFromCdn.ImageFromCdnLaidOut | _plugins/image_from_cdn.rb:3 | the output holds `![`, then alt character by character, then `](`, then BASE, then path, then `)` |
| ImageFromCdn.LaidOutImageFromCdn | _plugins/image_from_cdn.rb:3 | any string laid out that way is exactly the filter's output for that alt and path |
| ImageFromCdn.LaidOutIff | _plugins/image_from_cdn.rb:3 | a string equals the filter's output if and only if it has the reference layout |
| ImageFromCdn.Sections | _plugins/image_from_cdn.rb:3 | the output splits into `![`, alt, `](`, BASE, path and `)`; alt is the slice starting at index 2 and `BASE + path` is the slice just before the final `)`, so both are inserted verbatim |
| ImageFromCdn.Unrender | _plugins/image_from_cdn.rb:3 | decoding with a given alt length returns an alt of that length and a path consistent with the length law |
| ImageFromCdn.UnrenderImageFromCdn | _plugins/image_from_cdn.rb:3 | decoding an output with its own alt length gives back exactly the alt and the path |
| ImageFromCdn.ImageFromCdnUnrender | _plugins/image_from_cdn.rb:3 | whatever the decoder returns is reproduced by the filter; when it returns nothing, no alt of that length and no path produce the string |
| ImageFromCdn.EqualLengthAltsDetermineArguments | _plugins/image_from_cdn.rb:3 | for alt texts of equal length, two outputs are equal if and only if both the paths and the alts are equal |
| ImageFromCdn.InjectiveInPath | _plugins/image_from_cdn.rb:3 | with alt fixed, distinct paths give distinct outputs |
| ImageFromCdn.InjectiveInAlt | _plugins/image_from_cdn.rb:3 | with path fixed, distinct alts give distinct outputs, whatever their lengths |
| ImageFromCdn.AmbiguousWithoutEscaping | _plugins/image_from_cdn.rb:3 | when both path and alt vary, some distinct argument pairs, with alts of different lengths, give the same output, because alt is not escaped |
| ImageFromCdn.DefaultAlt | _plugins/image_from_cdn.rb:2-3 | omitting alt is the same as passing `"Image"` |
| ImageFromCdn.EmptyPath | _plugins/image_from_cdn.rb:2-3 | an empty path gives a reference whose URL ends at BASE |
| ImageFromCdn.ExampleDefaultAlt | _plugins/image_from_cdn.rb:2-3 | `cats/cat1.png` alone gives `![Image](` + BASE + `cats/cat1.png)` |
| ImageFromCdn.ExampleWithAlt | _plugins/image_from_cdn.rb:3 | `cats/cat1.png` with alt `A sleepy cat` gives `![A sleepy cat](` + BASE + `cats/cat1.png)` |
| ImageFromCdn.ExampleEmptyPath | _plugins/image_from_cdn.rb:2-3 | an empty path alone gives `![Image](` + BASE + `)` |
| ImageFromCdn.ExampleNoEscaping | _plugins/image_from_cdn.rb:3 | path `a b.png` with an empty alt gives `![](` + BASE + `a b.png)`; the space is kept as is |

## Left out

- `Liquid::Template.register_filter(ImageFromCdn)` (`_plugins/image_from_cdn.rb:7`): registration with the Liquid template engine, which is not part of this model.
- String encodings: the model takes Ruby strings as sequences of Unicode characters. It drops the encoding each Ruby string carries, and with it the `Encoding::CompatibilityError` that interpolation raises when `alt` and `path` hold non-ASCII text in clashing encodings (for example ISO-8859-1 and UTF-8). Lengths in the model count Unicode characters, not characters of a string's own encoding.
- Non-string arguments: Ruby interpolation converts any value with `to_s`, so a template that passes a number or `nil` gets its text form (`nil` gives an empty string). The model takes both arguments as strings.
- How Markdown later renders the string, for instance whether a URL with a space or an alt text with `]` is valid. That belongs to the renderer, not to the filter.
- `tailwind.config.js`: static configuration for the CSS build tool, with no logic of its own.
- Determinism and statelessness have no lemma of their own. They hold because `ImageFromCdn` is a Dafny function with no `reads` clause, and the lemma would only say `f(x) == f(x)`.
