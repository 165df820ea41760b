/** The two string tests the repository relies on: the ".mp4" suffix test
    and the "tiktok.com" substring test. */
module Strings {

  /** Python's `s.endswith(suffix)`. */
  predicate EndsWith(s: string, suffix: string) {
    |suffix| <= |s| && s[|s| - |suffix|..] == suffix
  }

  /** Python's `part in s` on strings. */
  predicate Contains(s: string, part: string) {
    exists i :: 0 <= i <= |s| && part <= s[i..]
  }

  const VideoSuffix: string := ".mp4"
  const TikTokDomain: string := "tiktok.com"

  /** A directory entry that counts as a downloaded video. */
  predicate IsVideoFile(name: string) {
    EndsWith(name, VideoSuffix)
  }

  /** An href that counts as a video link. */
  predicate IsTikTokLink(href: string) {
    Contains(href, TikTokDomain)
  }
}
