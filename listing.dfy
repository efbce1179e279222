/**
 * The startup record the list and statistics helpers work on. Timestamps are
 * milliseconds since the epoch (what `new Date(s).getTime()` yields for a valid
 * ISO string); `title` stands for the record's other fields, which the helpers
 * carry along untouched.
 */
module Listing {
  import opened Wrappers

  datatype Startup = Startup(
    title: string,
    createdAt: int,
    views: Option<int>,
    likes: Option<seq<string>>)

  /** `startup.views || 0`: an absent or null view count counts as zero. */
  function ViewsOrZero(s: Startup): int {
    s.views.GetOr(0)
  }
}
