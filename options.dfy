// options.h: the run's default filters, read by both scanners when they are
// built and when their filters are reset.

module RunOptions {

  /** `opt_exts` and `opt_ignores`, in order. */
  datatype Options = Options(exts: seq<string>, ignores: seq<string>)
}
