# Post board: bearer tokens and the owner-checked post store

This project models, in Dafny, the two pieces of logic of a small Spring post board
that carry a contract:

- **Bearer tokens** (`JwtUtil`): taking the raw token out of an `Authorization`
  header value that starts with `"Bearer "`, issuing `"Bearer " + <compact JWS>` for a
  username with a one-hour lifetime, and validating a token, which turns every parse
  failure into `false`. The JWT library (Base64 key decoding and `hmacShaKeyFor`,
  signing a compact JWS per section 7.1 of RFC 7515 with HS256 per section 3.2 of
  RFC 7518, and parsing one) is a value of type `Jwt.Library` handed to the model.
  The predicate `Jwt.Sound` states what RFC 7519 asks of such a library, and the
  round-trip lemmas assume it.
- **Posts** (`PostService` over `Post`): a repository table `map<int, Post>` of
  mutable `Post` objects, with create, list, read by id, update and delete. An absent
  id is a not-found error. A caller who fails the ownership check gets a forbidden
  error. Update compares only usernames, while delete compares the whole `User`
  record. `PostResponseDto` is the projection the service returns.

Files: `wrappers.dfy` (Option, Result, Outcome), `jwt.dfy` (module `Jwt`),
`entity.dfy` (module `Entity`: `User`, `PostRequest`, class `Post`), `dto.dfy`
(module `Dto`), `service.dfy` (module `Service`: class `PostService`).

Time is a parameter `now` in milliseconds since the epoch. The library stores `iat`
and `exp` as whole seconds, using Java's truncating division (`Jwt.NumericDate`). A
token therefore expires at the start of the second that holds `now + 3600000`. Under
the idealised library of `Jwt.Sound`, which refuses a token on or after that instant,
it is accepted for at least 3599 seconds and refused from 3600 seconds on.

Three behaviours of the code that the model keeps:
- The header `"Bearer "` yields the empty token, not "no token". `hasText` holds for
  every value that starts with the prefix, so it never rejects anything. The empty
  token is then refused by validation (`Jwt.BareBearerRefused`).
- Ownership is not checked on one canonical identifier. Update compares usernames.
  Delete compares id, username and password (`Service.UpdateDeleteAsymmetry`).
- Parse failures are not split into malformed and bad-signature. The code catches
  them in one branch, so they are one outcome, `BadSignatureOrMalformed`.

## Model

| member | source | states |
|---|---|---|
| `Jwt.ResolveToken` | src/main/java/com/sparta/lv2/jwt/JwtUtil.java:72-78 | a token is returned exactly when the header is present and starts with the case-sensitive `"Bearer "`; the header is then the prefix followed by the token, so the literal 7 strips exactly the prefix |
| `Jwt.PrefixedHasText` | src/main/java/com/sparta/lv2/jwt/JwtUtil.java:74 | every header value that starts with the prefix passes `hasText`, so that test is redundant |
| `Jwt.ResolveTokenExamples` | src/main/java/com/sparta/lv2/jwt/JwtUtil.java:72-77 | `"Bearer abc123"` gives `"abc123"`, `"bearer abc123"` and an absent header give null, and `"Bearer "` gives the empty string |
| `Jwt.NumericDate` | src/main/java/com/sparta/lv2/jwt/JwtUtil.java:90-92 | the seconds the library stores for a date are the milliseconds divided by 1000 with truncation toward zero |
| `Jwt.IssuedClaims` | src/main/java/com/sparta/lv2/jwt/JwtUtil.java:89-92 | the subject is the username, and after the epoch the issue and expiry times are the whole seconds holding `now` and `now + 3600000` |
| `Jwt.IssuedToken` | src/main/java/com/sparta/lv2/jwt/JwtUtil.java:88-94 | resolving the issued header value gives back exactly the compact JWS that follows the prefix |
| `Jwt.IssuedClaimsTimes` | src/main/java/com/sparta/lv2/jwt/JwtUtil.java:83-92 | the subject is the username, `exp - iat` is 3600 seconds, and the expiry instant lies in the last second before `now + 3600000` |
| `Jwt.IssuedTokenLifetime` | src/main/java/com/sparta/lv2/jwt/JwtUtil.java:81-113 | for a sound library, an issued token is accepted exactly before its expiry instant, parses to its subject and times up to `now + 3599000`, and is refused as expired from `now + 3600000` on |
| `Jwt.BareBearerRefused` | src/main/java/com/sparta/lv2/jwt/JwtUtil.java:72-111 | the header `"Bearer "` resolves to the empty token, which validation refuses |
| `Jwt.Accepts` | src/main/java/com/sparta/lv2/jwt/JwtUtil.java:98-113 | validation is total over the five parse outcomes and is true exactly when parsing succeeds; the malformed or bad-signature, expired, unsupported and empty-claims outcomes all give false |
| `Jwt.JwtUtil.constructor` | src/main/java/com/sparta/lv2/jwt/JwtUtil.java:52-55 | the configured secret is kept and the key is unset |
| `Jwt.JwtUtil.Init` | src/main/java/com/sparta/lv2/jwt/JwtUtil.java:63-67 | only the key changes; it becomes the decoded secret when decoding succeeds and is otherwise left as it was, with failure reported |
| `Jwt.JwtUtil.CreateToken` | src/main/java/com/sparta/lv2/jwt/JwtUtil.java:81-95 | with a key, the result is the issued token, and resolving it gives the compact JWS; without a key, signing fails |
| `Jwt.JwtUtil.ValidateToken` | src/main/java/com/sparta/lv2/jwt/JwtUtil.java:98-113 | true exactly when a key is set, the token is not null and parsing it with the key succeeds; a null token gives false; never fails for the five parse outcomes |
| `Jwt.JwtUtil.GetUserInfoFromToken` | src/main/java/com/sparta/lv2/jwt/JwtUtil.java:116-118 | the claims exactly when parsing succeeds, otherwise exactly the parser's failure outcome; a null token or a missing key is the illegal-argument failure |
| `Entity.Post.constructor` | src/main/java/com/sparta/lv2/entity/Post.java:32-35 | title and content come from the request; id, owner and timestamps are unset |
| `Entity.Post.SetUser` | src/main/java/com/sparta/lv2/entity/Post.java:39-41 | only the owner field changes, to the given user |
| `Entity.Post.SetTitle` | src/main/java/com/sparta/lv2/entity/Post.java:43-45 | only the title field changes |
| `Entity.Post.SetContent` | src/main/java/com/sparta/lv2/entity/Post.java:47-49 | only the content field changes |
| `Dto.FromPost` | src/main/java/com/sparta/lv2/dto/PostResponseDto.java:21-28 | the response carries the post's id, title, content and timestamps and its owner's username; a post without an owner cannot be projected |
| `Service.MayUpdate` | src/main/java/com/sparta/lv2/service/PostService.java:71 | the update check compares usernames only: the owner passes it, and a user passes exactly when the user equals the owner once id and password are disregarded |
| `Service.MayDelete` | src/main/java/com/sparta/lv2/service/PostService.java:90 | the delete check holds exactly when id, username and password all agree with the owner's |
| `Service.DeleteCheckStricter` | src/main/java/com/sparta/lv2/entity/User.java:12-24 | the delete check holds exactly when id, username and password all agree, and it implies the update check |
| `Service.UpdateDeleteAsymmetry` | src/main/java/com/sparta/lv2/service/PostService.java:71-90 | a user with the owner's username but another id or password passes the update check and fails the delete check |
| `Service.Without` | src/main/java/com/sparta/lv2/service/PostService.java:94 | removing an id from the listing order keeps exactly the other ids and keeps them distinct |
| `Service.PostService.constructor` | src/main/java/com/sparta/lv2/service/PostService.java:20-21 | the service starts over an empty table |
| `Service.PostService.FindPost` | src/main/java/com/sparta/lv2/service/PostService.java:100-105 | the stored post, whose id is the one asked for, exactly when the id is present; otherwise not-found |
| `Service.PostService.Save` | src/main/java/com/sparta/lv2/service/PostService.java:41 | storage gives the new post the next identity value, adds it to the table and lists it last |
| `Service.PostService.Delete` | src/main/java/com/sparta/lv2/service/PostService.java:94 | exactly the post's id leaves the table and the listing order |
| `Service.PostService.CreatePost` | src/main/java/com/sparta/lv2/service/PostService.java:27-47 | one new row under an id not used before, with the request's title and content and the given owner; all other rows unchanged; the response describes the new row |
| `Service.PostService.GetPosts` | src/main/java/com/sparta/lv2/service/PostService.java:49-55 | one response per stored row, in the repository's order, as many as there are rows |
| `Service.PostService.Responses` | src/main/java/com/sparta/lv2/service/PostService.java:50-52 | maps each id of a list to the response for its row, keeping length and order |
| `Service.PostService.GetPostById` | src/main/java/com/sparta/lv2/service/PostService.java:58-61 | the response for the stored row, or not-found when the id is absent |
| `Service.PostService.UpdatePost` | src/main/java/com/sparta/lv2/service/PostService.java:66-80 | not-found for an absent id and forbidden for a different username, both with the table unchanged; otherwise only that row's title and content change, to the request's, and the response shows the new row |
| `Service.PostService.DeletePost` | src/main/java/com/sparta/lv2/service/PostService.java:82-95 | not-found for an absent id and forbidden unless the acting user equals the owner on all fields, both with the table unchanged; otherwise exactly that row is removed |

## Left out

- HMAC-SHA256 signing, Base64 decoding of the secret, `Keys.hmacShaKeyFor` and JWS parsing are done by a library. The model takes them as the functions of a `Jwt.Library` value. `Jwt.Sound` idealises that library along RFC 7519: a token is refused on or after its `exp` instant (section 4.1.4). The jjwt parser refuses only strictly after that instant, so at exactly `exp * 1000` milliseconds it still accepts a token that `Jwt.Sound` calls expired; the expiry results of `Jwt.IssuedTokenLifetime` hold for the idealised library, and differ from jjwt at that one millisecond.
- Tamper detection is not stated. That a token signed with one key is refused under another is a property of HMAC, not of this code. HMAC itself treats some different keys alike, such as keys that differ only by trailing zero bytes.
- Not-before (`nbf`) claims are not modelled. The parser throws an exception for them that `validateToken` does not catch. Tokens issued by this code never carry one.
- Jwt.JwtUtil.ValidateToken: never fails only for the five parse outcomes of `Jwt.ParseResult`. The library can raise exceptions outside the four families `validateToken` catches, for instance the decoding exception for a segment with a character outside base64url (the header `"Bearer a b.c.d"`), and those escape; the model does not represent them.
- Jwt.IssuedTokenLifetime: its round trip "parses to its subject" rests on `Jwt.Sound`, which gives back every claim set. The jjwt builder drops a blank subject, so for an empty or all-whitespace username the signed token has no `sub` and the parsed claims differ; `Jwt.Sound` idealises the library in this respect too.
- The wall clock (`new Date()`) is a parameter `now`. Logging is left out.
- `HttpServletRequest` is reduced to the value of its `Authorization` header, as an Option. The header-name lookup itself is not modelled.
- Java strings are UTF-16 code units and Dafny strings are Unicode scalar values. The prefix is ASCII, so `substring(7)` and the model agree on it.
- The `TimeStamped` auditing that sets `createdAt` and `modifiedAt` is not part of this model. Those fields are opaque values that no operation writes, so a created post's response has unset timestamps.
- Spring and JPA wiring is not modelled: the `@OneToOne` mapping of `Post.user` (under a unique foreign key a user could own only one post, and a second `createPost` by that user would fail at save, while the model always succeeds), transactions, the repository's own implementation, and the `PostListResponseDto` wrapper (`GetPosts` returns the list itself). The order of `findAll` is taken to be insertion order, which is ascending identity order.
- Null fields of a `User`, and stored posts without an owner, are not modelled. The table invariant requires an owner for every stored post. The null dereferences these would cause are therefore outside the model: in `getPosts`, `getPostById`, `updatePost` and `deletePost` on an ownerless stored post, and in `createPost` with a null user, which throws while building the response only after the save has stored the ownerless post.
- `UserController` has no logic. `UserDetailsImpl` only delegates to the user. Both are left out.
