/** The build options `get_user_input` (cli_input.py) collects and
    `start_build` (build.py) consumes. */
module Options {

  datatype BuildOptions = BuildOptions(
    distroName: string,
    distroVersion: string,
    deName: string,
    shell: string,
    username: string,
    password: string,
    device: string,
    kernelType: string)

  /** The dictionary `get_user_input` starts from: everything empty and the
      device an image file. */
  const DefaultOptions: BuildOptions := BuildOptions("", "", "", "", "", "", "image", "")
}
